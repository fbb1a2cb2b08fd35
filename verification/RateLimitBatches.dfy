/**
 The batch operation as a whole: it admits all keys or none, does not depend on the order of
 its requests, and its retry delay is honoured in every run.
 */
module RateLimitBatches {
  import opened RateLimitRequest
  import opened RateLimitApply
  import opened RateLimitHistory
  import opened RateLimitLaws
  import opened RateLimitMemory
  import opened RateLimitRuns

  function DecideStored(items: map<string, State>, now: nat, r: Request): Decision
    requires r.Valid()
  {
    Apply(now, r, Lookup(items, now, r.key))
  }

  /** The loop's verdict without the loop: denied if some request is, with the largest delay. */
  ghost predicate DenialMeaning(items: map<string, State>, now: nat, requests: seq<Request>, progress: Progress)
    requires AllValid(requests)
  {
    && (progress.denied <==> exists r :: r in requests && !DecideStored(items, now, r).allowed)
    && (forall r :: r in requests ==> DecideStored(items, now, r).retry <= progress.retryAfter)
    && (progress.retryAfter == 0 || exists r :: r in requests && DecideStored(items, now, r).retry == progress.retryAfter)
    && progress.retryAfter >= 0
  }

  /** The loop's staged states without the loop: one per admitted request. */
  ghost predicate UpdateMeaning(items: map<string, State>, now: nat, requests: seq<Request>, progress: Progress)
    requires AllValid(requests)
  {
    && (forall r :: r in requests && DecideStored(items, now, r).allowed ==>
          r.key in progress.updates && progress.updates[r.key] == Stamped(r, now, DecideStored(items, now, r).next))
    && (forall key :: key in progress.updates ==>
          exists r :: r in requests && r.key == key && DecideStored(items, now, r).allowed)
  }

  ghost predicate BatchMeaning(items: map<string, State>, now: nat, requests: seq<Request>, progress: Progress)
    requires AllValid(requests)
  {
    DenialMeaning(items, now, requests, progress) && UpdateMeaning(items, now, requests, progress)
  }

  lemma {:induction false} EvaluateMeaning(items: map<string, State>, now: nat, requests: seq<Request>)
    requires AllValid(requests) && DistinctKeys(requests)
    ensures BatchMeaning(items, now, requests, Evaluate(items, now, requests))
  {
    if requests == [] {
    } else {
      var front, r := requests[..|requests| - 1], requests[|requests| - 1];
      assert requests == front + [r];
      EvaluateMeaning(items, now, front);
      assert forall q :: q in front ==> q.key != r.key;
      AdvanceMeaning(items, now, front, r, Evaluate(items, now, front));
    }
  }

  lemma AdvanceMeaning(items: map<string, State>, now: nat, front: seq<Request>, r: Request, progress: Progress)
    requires AllValid(front) && r.Valid() && BatchMeaning(items, now, front, progress)
    requires forall q :: q in front ==> q.key != r.key
    ensures BatchMeaning(items, now, front + [r], Advance(progress, items, now, r))
  {
    RetryOfDecision(now, r, Lookup(items, now, r.key));
    AdvanceDenial(items, now, front, r, progress);
    AdvanceUpdates(items, now, front, r, progress);
  }

  lemma AdvanceDenial(items: map<string, State>, now: nat, front: seq<Request>, r: Request, progress: Progress)
    requires AllValid(front) && r.Valid() && DenialMeaning(items, now, front, progress)
    requires DecideStored(items, now, r).allowed <==> DecideStored(items, now, r).retry <= 0
    ensures DenialMeaning(items, now, front + [r], Advance(progress, items, now, r))
  {
    assert DecideStored(items, now, r) == Apply(now, r, Lookup(items, now, r.key));
    hide Apply, Lookup, Stamped, Request.Valid, Request.Validate, DecideStored;
    assert forall q :: q in front + [r] <==> q in front || q == r;
  }

  lemma AdvanceUpdates(items: map<string, State>, now: nat, front: seq<Request>, r: Request, progress: Progress)
    requires AllValid(front) && r.Valid() && UpdateMeaning(items, now, front, progress)
    requires forall q :: q in front ==> q.key != r.key
    ensures UpdateMeaning(items, now, front + [r], Advance(progress, items, now, r))
  {
    assert DecideStored(items, now, r) == Apply(now, r, Lookup(items, now, r.key));
    hide Apply, Lookup, Stamped, Request.Valid, Request.Validate, DecideStored;
    assert forall q :: q in front + [r] <==> q in front || q == r;
  }

  /** A batch is admitted if and only if it is well formed and each of its requests alone would be. */
  lemma AllOrNothing(store: Store, now: nat, requests: seq<Request>)
    ensures Take(store, now, requests).1.allowed <==>
            && AllValid(requests) && DistinctKeys(requests)
            && forall r :: r in requests ==> Take(store, now, [r]).1.allowed
  {
    FirstErrorMeaning(requests);
    forall r | r in requests && r.Valid()
      ensures Take(store, now, [r]).1.allowed == DecideStored(Swept(store, now).items, now, r).allowed
    {
      FirstErrorMeaning([r]);
      EvaluateMeaning(Swept(store, now).items, now, [r]);
      assert r in [r];
    }
    if requests != [] && FirstError(requests).None? {
      EvaluateMeaning(Swept(store, now).items, now, requests);
    }
  }

  /** A denied or erroneous batch changes no unexpired state and adds none. */
  lemma DenialChangesNothing(store: Store, now: nat, requests: seq<Request>)
    requires !Take(store, now, requests).1.allowed
    ensures Unexpired(Take(store, now, requests).0.items, now) == Unexpired(store.items, now)
    ensures Take(store, now, requests).0.items.Keys <= store.items.Keys
  {
  }

  lemma SameRequestsSameMeaning(items: map<string, State>, now: nat, a: seq<Request>, b: seq<Request>, p: Progress,
                                q: Progress)
    requires AllValid(a) && AllValid(b) && (forall r :: r in a <==> r in b)
    requires BatchMeaning(items, now, a, p) && BatchMeaning(items, now, b, q)
    ensures p == q
  {
    hide Apply, Lookup, Stamped, Request.Validate, DecideStored;
    forall key | key in p.updates ensures key in q.updates && p.updates[key] == q.updates[key] {
      var r :| r in a && r.key == key && DecideStored(items, now, r).allowed;
    }
    forall key | key in q.updates ensures key in p.updates {
      var r :| r in b && r.key == key && DecideStored(items, now, r).allowed;
    }
    assert p.updates == q.updates;
    if p.retryAfter != 0 {
      var r :| r in a && DecideStored(items, now, r).retry == p.retryAfter;
    }
    if q.retryAfter != 0 {
      var r :| r in b && DecideStored(items, now, r).retry == q.retryAfter;
    }
  }

  lemma PermutedWellFormed(a: seq<Request>, b: seq<Request>)
    requires multiset(a) == multiset(b) && AllValid(a) && DistinctKeys(a)
    ensures AllValid(b) && DistinctKeys(b) && (forall r :: r in a <==> r in b)
  {
    forall r ensures r in a <==> r in b {
      assert r in a <==> r in multiset(a);
      assert r in b <==> r in multiset(b);
    }
    forall i, j | 0 <= i < j < |b| ensures b[i].key != b[j].key {
      if b[i].key == b[j].key {
        assert b[i] in a && b[j] in a;
        assert b[i] == b[j];
        TwiceInMultiset(b, i, j);
        OnceInMultiset(a, b[i]);
      }
    }
  }

  lemma TwiceInMultiset(s: seq<Request>, i: nat, j: nat)
    requires i < j < |s| && s[i] == s[j]
    ensures multiset(s)[s[i]] >= 2
  {
    assert s == s[..i] + [s[i]] + s[i + 1..j] + [s[j]] + s[j + 1..];
  }

  lemma OnceInMultiset(s: seq<Request>, r: Request)
    requires DistinctKeys(s)
    ensures multiset(s)[r] <= 1
  {
    if r in s {
      var i :| 0 <= i < |s| && s[i] == r;
      assert s == s[..i] + [r] + s[i + 1..];
      assert r !in s[..i] && r !in s[i + 1..];
    }
  }

  /** Permuting a batch changes neither the decision, the retry delay nor the resulting state. */
  lemma OrderIndependent(store: Store, now: nat, a: seq<Request>, b: seq<Request>)
    requires multiset(a) == multiset(b)
    ensures Take(store, now, a).0 == Take(store, now, b).0
    ensures Take(store, now, a).1.allowed == Take(store, now, b).1.allowed
    ensures Take(store, now, a).1.retryAfter == Take(store, now, b).1.retryAfter
    ensures Take(store, now, a).1.error.Some? == Take(store, now, b).1.error.Some?
  {
    hide Apply, Lookup, Stamped, Request.Validate, DecideStored, Evaluate, BatchMeaning;
    FirstErrorMeaning(a);
    FirstErrorMeaning(b);
    assert |a| == |multiset(a)| == |b|;
    if AllValid(a) && DistinctKeys(a) { PermutedWellFormed(a, b); }
    if AllValid(b) && DistinctKeys(b) { PermutedWellFormed(b, a); }
    if FirstError(a).None? {
      var items := Swept(store, now).items;
      EvaluateMeaning(items, now, a);
      EvaluateMeaning(items, now, b);
      SameRequestsSameMeaning(items, now, a, b, Evaluate(items, now, a), Evaluate(items, now, b));
    }
  }

  // ---------- the retry delay over runs ----------

  lemma {:induction false} RefRunSplit(histories: Histories, a: seq<Call>, b: seq<Call>)
    ensures var (middle, first) := RefRun(histories, a);
            var (last, second) := RefRun(middle, b);
            RefRun(histories, a + b) == (last, first + second)
    decreases |a|
  {
    hide RefTake;
    if a == [] {
      assert a + b == b;
      assert [] + RefRun(histories, b).1 == RefRun(histories, b).1;
    } else {
      var (histories', outcome) := RefTake(histories, a[0].now, a[0].requests);
      RefRunSplit(histories', a[1..], b);
      assert (a + b)[1..] == a[1..] + b && (a + b)[0] == a[0];
      var middle := RefRun(histories', a[1..]);
      assert ([outcome] + middle.1) + RefRun(middle.0, b).1 == [outcome] + (middle.1 + RefRun(middle.0, b).1);
    }
  }

  lemma {:induction false} ValidRunSplit(config: Config, from: nat, a: seq<Call>, b: seq<Call>)
    requires ValidRun(config, from, a + b)
    ensures ValidRun(config, from, a) && ValidRun(config, EndTime(from, a), b)
    ensures from <= EndTime(from, a)
    decreases |a|
  {
    hide Consistent;
    if a == [] {
      assert a + b == b;
    } else {
      assert (a + b)[1..] == a[1..] + b && (a + b)[0] == a[0];
      assert EndTime(from, a) == EndTime(a[0].now, a[1..]);
      ValidRunSplit(config, a[0].now, a[1..], b);
    }
  }

  lemma {:induction false} NoAdmissions(calls: seq<Call>, outcomes: seq<Outcome>, key: string)
    requires |calls| == |outcomes|
    requires forall i :: 0 <= i < |calls| && outcomes[i].allowed ==> key !in Keys(calls[i].requests)
    ensures Admissions(calls, outcomes, key) == []
  {
    if calls == [] {
    } else {
      NoAdmissions(calls[1..], outcomes[1..], key);
    }
  }

  lemma {:induction false} MaxRetryCovers(histories: Histories, now: nat, requests: seq<Request>, r: Request)
    requires AllValid(requests) && r in requests
    ensures r.Valid() && Decide(r, HistoryOf(histories, r.key), now).retry <= MaxRetry(histories, now, requests)
  {
    hide Apply, Request.Validate, Decide;
    var front := requests[..|requests| - 1];
    assert requests == front + [requests[|requests| - 1]];
    if r in front { MaxRetryCovers(histories, now, front, r); }
  }

  /** Histories untouched on the batch's keys: from now + retryAfter on the denied batch is admitted. */
  lemma RefRetry(config: Config, histories: Histories, histories': Histories, now: nat, later: nat, batch: seq<Request>)
    requires ValidConfig(config) && Consistent(config, batch) && LegalHistories(config, histories, now)
    requires RefOutcome(histories, now, batch).error.None?
    requires forall key :: key in Keys(batch) ==> HistoryOf(histories', key) == HistoryOf(histories, key)
    requires later >= now + RefOutcome(histories, now, batch).retryAfter
    ensures RefOutcome(histories', later, batch).allowed
  {
    FirstErrorMeaning(batch);
    forall r | r in batch ensures Decide(r, HistoryOf(histories', r.key), later).allowed {
      hide Apply, Request.Validate, StateOf, Decide, Legal;
      assert r.Valid() && config[r.key] == r;
      assert r.key in Keys(batch);
      var hist := HistoryOf(histories, r.key);
      assert Decide(r, hist, now).retry <= RefOutcome(histories, now, batch).retryAfter by {
        MaxRetryCovers(histories, now, batch, r);
        if AllAllowed(histories, now, batch) { RetryOfDecide(r, hist, now); }
      }
      RetrySuffices(r, hist, now, later);
    }
  }

  lemma RetryOfDecide(r: Request, hist: History, now: nat)
    requires r.Valid() && Decide(r, hist, now).allowed
    ensures Decide(r, hist, now).retry <= 0
  {
    RetryOfDecision(now, r, StateOf(r, hist));
  }

  /**
   In every run of the real limiter: a batch denied at `now` with delay d, and presented again at
   or after now + d with no admission of any of its keys in between, is admitted.
   */
  lemma RetryHonoured(config: Config, before: seq<Call>, now: nat, batch: seq<Request>, between: seq<Call>, later: nat)
    requires ValidConfig(config)
    requires ValidRun(config, 0, before + [Call(now, batch)] + between + [Call(later, batch)])
    requires var calls := before + [Call(now, batch)] + between + [Call(later, batch)];
             var outcomes := Run(EMPTY_STORE, calls).1;
             && |outcomes| == |calls|
             && outcomes[|before|].error.None?
             && later >= now + outcomes[|before|].retryAfter
             && !outcomes[|before|].allowed
             && forall i :: 0 <= i < |between| && outcomes[|before| + 1 + i].allowed ==>
                  Keys(between[i].requests) !! Keys(batch)
    ensures var calls := before + [Call(now, batch)] + between + [Call(later, batch)];
            Run(EMPTY_STORE, calls).1[|calls| - 1].allowed
  {
    hide Legal, Request.Validate, Take, RefOutcome, Admissions, Keys;
    var first, last := [Call(now, batch)], [Call(later, batch)];
    var calls := before + first + between + last;
    EvictionUnobservable(config, calls);
    var (h1, o1) := RefRun(map[], before);
    var (h2, o2) := RefRun(h1, first);
    var (h3, o3) := RefRun(h2, between);
    RefRunSplit(map[], before, first);
    RefRunSplit(map[], before + first, between);
    RefRunSplit(map[], before + first + between, last);
    ValidRunSplit(config, 0, before + first + between, last);
    ValidRunSplit(config, 0, before + first, between);
    ValidRunSplit(config, 0, before, first);
    RunLengths(before, h1, first, h2, between);
    RefRunLegal(config, before, now);
    assert o2 == [RefOutcome(h1, now, batch)] && h2 == h1;
    forall key | key in Keys(batch) ensures HistoryOf(h3, key) == HistoryOf(h1, key) {
      RefRunRecords(h2, between, key);
      forall i | 0 <= i < |between| && o3[i].allowed ensures key !in Keys(between[i].requests) {
        assert Run(EMPTY_STORE, calls).1[|before| + 1 + i] == o3[i];
      }
      NoAdmissions(between, o3, key);
    }
    RefRetry(config, h1, h3, now, later, batch);
  }

  lemma RunLengths(before: seq<Call>, h1: Histories, first: seq<Call>, h2: Histories, between: seq<Call>)
    ensures |RefRun(map[], before).1| == |before|
    ensures |RefRun(h1, first).1| == |first|
    ensures |RefRun(h2, between).1| == |between|
  {
    RefRunRecords(map[], before, "");
    RefRunRecords(h1, first, "");
    RefRunRecords(h2, between, "");
  }

  lemma RefRunLegal(config: Config, before: seq<Call>, now: nat)
    requires ValidConfig(config) && ValidRun(config, 0, before) && EndTime(0, before) <= now
    ensures LegalHistories(config, RefRun(map[], before).0, now)
  {
    RunSimulates(config, EMPTY_STORE, map[], 0, before);
  }
}
