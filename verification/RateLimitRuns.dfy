/**
 Whole runs of the in-process limiter, compared with a reference limiter that keeps nothing but
 the full admission history of every key.  The clock never goes backwards and a key's
 parameters never change during a run.
 */
module RateLimitRuns {
  import opened Wrappers
  import opened RateLimitRequest
  import opened RateLimitApply
  import opened RateLimitHistory
  import opened RateLimitBuckets
  import opened RateLimitWindows
  import opened RateLimitLaws
  import opened RateLimitMemory

  type Config = map<string, Request>
  type Histories = map<string, History>

  /** One call of the batch operation, with the time it reads from the clock. */
  datatype Call = Call(now: nat, requests: seq<Request>)

  predicate ValidConfig(config: Config) {
    forall key :: key in config ==> config[key].Valid() && config[key].key == key
  }

  /** Every valid request of the batch carries its key's fixed parameters. */
  predicate Consistent(config: Config, requests: seq<Request>) {
    forall r :: r in requests && r.Valid() ==> r.key in config && config[r.key] == r
  }

  predicate ValidRun(config: Config, from: nat, calls: seq<Call>)
    decreases |calls|
  {
    calls != [] ==>
      && from <= calls[0].now
      && Consistent(config, calls[0].requests)
      && ValidRun(config, calls[0].now, calls[1..])
  }

  function EndTime(from: nat, calls: seq<Call>): nat {
    if calls == [] then from else calls[|calls| - 1].now
  }

  // ---------- the reference limiter ----------

  function HistoryOf(histories: Histories, key: string): History {
    if key in histories then histories[key] else []
  }

  predicate AllAllowed(histories: Histories, now: nat, requests: seq<Request>)
    requires AllValid(requests)
  {
    forall r :: r in requests ==> Decide(r, HistoryOf(histories, r.key), now).allowed
  }

  /** The largest delay any request of the batch asks for. */
  function MaxRetry(histories: Histories, now: nat, requests: seq<Request>): (retry: int)
    requires AllValid(requests)
    ensures retry >= 0
  {
    if requests == [] then 0
    else
      var front, r := requests[..|requests| - 1], requests[|requests| - 1];
      var before := MaxRetry(histories, now, front);
      var retry := Decide(r, HistoryOf(histories, r.key), now).retry;
      if retry > before then retry else before
  }

  function RefOutcome(histories: Histories, now: nat, requests: seq<Request>): Outcome {
    if FirstError(requests).Some? then Outcome(false, 0, FirstError(requests))
    else
      FirstErrorMeaning(requests);
      if AllAllowed(histories, now, requests) then Outcome(true, 0, None)
      else Outcome(false, MaxRetry(histories, now, requests), None)
  }

  /** Records an admission at `now` for every one of the keys. */
  function RecordKeys(histories: Histories, now: nat, keys: set<string>): Histories {
    map key | key in histories.Keys + keys ::
      if key in keys then HistoryOf(histories, key) + [now] else histories[key]
  }

  /** Records an admission of the whole batch. */
  function Record(histories: Histories, now: nat, requests: seq<Request>): Histories {
    RecordKeys(histories, now, Keys(requests))
  }

  function RefTake(histories: Histories, now: nat, requests: seq<Request>): (Histories, Outcome) {
    var outcome := RefOutcome(histories, now, requests);
    (if outcome.allowed then Record(histories, now, requests) else histories, outcome)
  }

  // ---------- runs ----------

  function Run(store: Store, calls: seq<Call>): (Store, seq<Outcome>)
    decreases |calls|
  {
    if calls == [] then (store, [])
    else
      var (store', outcome) := Take(store, calls[0].now, calls[0].requests);
      var (last, outcomes) := Run(store', calls[1..]);
      (last, [outcome] + outcomes)
  }

  function RefRun(histories: Histories, calls: seq<Call>): (Histories, seq<Outcome>)
    decreases |calls|
  {
    if calls == [] then (histories, [])
    else
      var (histories', outcome) := RefTake(histories, calls[0].now, calls[0].requests);
      var (last, outcomes) := RefRun(histories', calls[1..]);
      (last, [outcome] + outcomes)
  }

  /** When a key was admitted, read off the calls and the outcomes the callers saw. */
  function Admissions(calls: seq<Call>, outcomes: seq<Outcome>, key: string): History
    requires |calls| == |outcomes|
  {
    if calls == [] then []
    else
      (if outcomes[0].allowed && key in Keys(calls[0].requests) then [calls[0].now] else [])
      + Admissions(calls[1..], outcomes[1..], key)
  }

  // ---------- the simulation ----------

  /** Histories a run can have built up by time `now`. */
  ghost predicate LegalHistories(config: Config, histories: Histories, now: nat)
    requires ValidConfig(config)
  {
    && histories.Keys <= config.Keys
    && forall key :: key in config ==>
         Legal(config[key], HistoryOf(histories, key)) && UpTo(HistoryOf(histories, key), now)
  }

  /** A stored state is the replayed state; a state is missing only if it is fresh or past its TTL. */
  ghost predicate Simulates(config: Config, items: map<string, State>, histories: Histories, now: nat)
    requires ValidConfig(config)
  {
    && items.Keys <= config.Keys
    && forall key :: key in config ==>
         var hist := HistoryOf(histories, key);
         && (key in items ==> hist != [] && items[key] == StateOf(config[key], hist))
         && (key !in items && hist != [] ==> Last(hist) + StateTTL(config[key]) <= now)
  }

  lemma SweepSimulates(config: Config, store: Store, histories: Histories, from: nat, now: nat)
    requires ValidConfig(config) && from <= now
    requires LegalHistories(config, histories, from) && Simulates(config, store.items, histories, from)
    ensures LegalHistories(config, histories, now)
    ensures Simulates(config, Swept(store, now).items, histories, now)
  {
  }

  lemma SimulatesLater(config: Config, items: map<string, State>, histories: Histories, from: nat, now: nat)
    requires ValidConfig(config) && from <= now && Simulates(config, items, histories, from)
    ensures Simulates(config, items, histories, now)
  {
    hide StateOf, StateTTL, HistoryOf;
  }

  /** Looking a state up, expired or not, decides like the full history. */
  lemma LookupDecides(config: Config, items: map<string, State>, histories: Histories, now: nat, key: string)
    requires ValidConfig(config) && key in config
    requires LegalHistories(config, histories, now) && Simulates(config, items, histories, now)
    ensures var request, hist := config[key], HistoryOf(histories, key);
            var decision, reference := Apply(now, request, Lookup(items, now, key)), Decide(request, hist, now);
            && decision.allowed == reference.allowed && decision.retry == reference.retry
            && (decision.allowed ==>
                  Stamped(request, now, decision.next) == StateOf(request, hist + [now]))
            && (decision.allowed ==> decision.retry == 0) && (!decision.allowed ==> decision.retry > 0)
  {
    hide Apply;
    var request, hist := config[key], HistoryOf(histories, key);
    assert Front(hist + [now]) == hist;
    if hist != [] && (key !in items || Expired(items[key], now)) {
      EvictionHarmless(request, hist, now);
    }
    RetryOfDecision(now, request, Lookup(items, now, key));
  }

  /** The loop's progress on a batch, in terms of the histories. */
  ghost predicate Matches(config: Config, histories: Histories, now: nat, requests: seq<Request>, progress: Progress)
    requires ValidConfig(config) && AllValid(requests)
  {
    && progress.denied == !AllAllowed(histories, now, requests)
    && progress.retryAfter == MaxRetry(histories, now, requests)
    && progress.updates.Keys <= Keys(requests) * config.Keys
    && (!progress.denied ==> progress.updates.Keys == Keys(requests))
    && (forall key :: key in progress.updates ==>
          progress.updates[key] == StateOf(config[key], HistoryOf(histories, key) + [now]))
  }

  lemma {:induction false} EvaluateMatches(config: Config, items: map<string, State>, histories: Histories, now: nat,
                                           requests: seq<Request>)
    requires ValidConfig(config) && AllValid(requests) && Consistent(config, requests)
    requires LegalHistories(config, histories, now) && Simulates(config, items, histories, now)
    ensures Matches(config, histories, now, requests, Evaluate(items, now, requests))
  {
    if requests == [] {
    } else {
      hide Apply, StateTTL, StateOf, Decide, Stamped, Lookup, Request.Validate;
      var front, r := requests[..|requests| - 1], requests[|requests| - 1];
      assert requests == front + [r];
      EvaluateMatches(config, items, histories, now, front);
      assert config[r.key] == r;
      LookupDecides(config, items, histories, now, r.key);
      AdvanceMatches(config, items, histories, now, front, r, Evaluate(items, now, front));
    }
  }

  lemma KeysAppend(front: seq<Request>, r: Request)
    ensures Keys(front + [r]) == Keys(front) + {r.key}
  {
    assert forall q :: q in front + [r] <==> q in front || q == r;
  }

  /** What one more request of the batch adds to the reference limiter's verdict. */
  lemma BatchGrows(histories: Histories, now: nat, front: seq<Request>, r: Request)
    requires AllValid(front) && r.Valid()
    ensures AllValid(front + [r])
    ensures var reference, before := Decide(r, HistoryOf(histories, r.key), now), MaxRetry(histories, now, front);
            && AllAllowed(histories, now, front + [r]) == (AllAllowed(histories, now, front) && reference.allowed)
            && MaxRetry(histories, now, front + [r]) == if reference.retry > before then reference.retry else before
  {
    hide Decide, HistoryOf, Request.Validate;
    assert (front + [r])[..|front|] == front;
    assert forall q :: q in front + [r] <==> q in front || q == r;
  }

  lemma AdvanceMatches(config: Config, items: map<string, State>, histories: Histories, now: nat,
                       front: seq<Request>, r: Request, progress: Progress)
    requires ValidConfig(config) && AllValid(front) && r.key in config && config[r.key] == r
    requires Matches(config, histories, now, front, progress)
    requires var decision, reference := Apply(now, r, Lookup(items, now, r.key)), Decide(r, HistoryOf(histories, r.key), now);
             && decision.allowed == reference.allowed && decision.retry == reference.retry
             && (decision.allowed ==>
                   Stamped(r, now, decision.next) == StateOf(r, HistoryOf(histories, r.key) + [now]))
             && (decision.allowed ==> decision.retry == 0)
    ensures Matches(config, histories, now, front + [r], Advance(progress, items, now, r))
  {
    hide Apply, StateTTL, StateOf, Decide, Stamped, Lookup, Request.Valid, Request.Validate, HistoryOf;
    hide AllAllowed, MaxRetry, Keys;
    BatchGrows(histories, now, front, r);
    KeysAppend(front, r);
    assert Keys(front + [r]) * config.Keys == Keys(front) * config.Keys + {r.key};
    var decision, progress' := Apply(now, r, Lookup(items, now, r.key)), Advance(progress, items, now, r);
    if decision.allowed {
      assert progress'.updates.Keys == progress.updates.Keys + {r.key};
    } else {
      assert progress'.updates == progress.updates;
    }
  }

  lemma RecordKeepsOthers(histories: Histories, now: nat, requests: seq<Request>, key: string)
    ensures HistoryOf(Record(histories, now, requests), key)
              == if key in Keys(requests) then HistoryOf(histories, key) + [now] else HistoryOf(histories, key)
  {
  }

  /** A batch of the reference limiter keeps every history legal. */
  lemma RefTakeLegal(config: Config, histories: Histories, from: nat, now: nat, requests: seq<Request>)
    requires ValidConfig(config) && Consistent(config, requests) && from <= now
    requires LegalHistories(config, histories, from)
    ensures LegalHistories(config, RefTake(histories, now, requests).0, now)
  {
    var histories' := RefTake(histories, now, requests).0;
    hide Apply, StateTTL, StateOf, Stamped, Request.Validate, Decide, Legal;
    FirstErrorMeaning(requests);
    forall key | key in config
      ensures Legal(config[key], HistoryOf(histories', key)) && UpTo(HistoryOf(histories', key), now)
    {
      RecordKeepsOthers(histories, now, requests, key);
      if RefOutcome(histories, now, requests).allowed && key in Keys(requests) {
        var r :| r in requests && r.key == key;
        assert config[key] == r;
        LegalExtends(r, HistoryOf(histories, key), now);
      }
    }
  }

  lemma LegalExtends(request: Request, hist: History, now: nat)
    requires request.Valid() && Legal(request, hist) && UpTo(hist, now) && Decide(request, hist, now).allowed
    ensures Legal(request, hist + [now]) && UpTo(hist + [now], now)
  {
    assert Front(hist + [now]) == hist;
  }

  /** One call: the limiter that forgets and the limiter that does not give the same outcome and stay related. */
  lemma TakeSimulates(config: Config, store: Store, histories: Histories, from: nat, now: nat, requests: seq<Request>)
    requires ValidConfig(config) && Consistent(config, requests) && from <= now
    requires LegalHistories(config, histories, from) && Simulates(config, store.items, histories, from)
    ensures Take(store, now, requests).1 == RefTake(histories, now, requests).1
    ensures Simulates(config, Take(store, now, requests).0.items, RefTake(histories, now, requests).0, now)
  {
    hide Apply, StateTTL, StateOf, Stamped, Request.Validate, Decide, Evaluate, Simulates, LegalHistories;
    SweepSimulates(config, store, histories, from, now);
    FirstErrorMeaning(requests);
    if requests != [] && FirstError(requests).None? {
      var items := Swept(store, now).items;
      EvaluateMatches(config, items, histories, now, requests);
      var progress := Evaluate(items, now, requests);
      if !progress.denied { CommitSimulates(config, items, histories, now, requests, progress); }
    } else if requests == [] {
      assert RefTake(histories, now, requests).0 == histories;
      SimulatesLater(config, store.items, histories, from, now);
    }
  }

  lemma CommitSimulates(config: Config, items: map<string, State>, histories: Histories, now: nat,
                        requests: seq<Request>, progress: Progress)
    requires ValidConfig(config) && AllValid(requests) && Consistent(config, requests)
    requires Simulates(config, items, histories, now)
    requires Matches(config, histories, now, requests, progress) && !progress.denied
    ensures Simulates(config, items + progress.updates, Record(histories, now, requests), now)
  {
    hide StateTTL, StateOf, Stamped, Request.Validate, Decide, Legal, AllAllowed, MaxRetry, Record, HistoryOf;
    forall key | key in config
      ensures HistoryOf(Record(histories, now, requests), key)
              == if key in Keys(requests) then HistoryOf(histories, key) + [now] else HistoryOf(histories, key)
    {
      RecordKeepsOthers(histories, now, requests, key);
    }
  }

  lemma {:induction false} RunSimulates(config: Config, store: Store, histories: Histories, from: nat, calls: seq<Call>)
    requires ValidConfig(config) && ValidRun(config, from, calls)
    requires LegalHistories(config, histories, from) && Simulates(config, store.items, histories, from)
    ensures Run(store, calls).1 == RefRun(histories, calls).1
    ensures LegalHistories(config, RefRun(histories, calls).0, EndTime(from, calls))
    decreases |calls|
  {
    hide Legal, StateTTL, StateOf, Request.Validate, Take, RefTake;
    if calls == [] {
    } else {
      var now, requests := calls[0].now, calls[0].requests;
      TakeSimulates(config, store, histories, from, now, requests);
      RefTakeLegal(config, histories, from, now, requests);
      RunSimulates(config, Take(store, now, requests).0, RefTake(histories, now, requests).0, now, calls[1..]);
    }
  }

  /** Eviction is unobservable: over every run both limiters report the same admissions, delays and errors. */
  lemma EvictionUnobservable(config: Config, calls: seq<Call>)
    requires ValidConfig(config) && ValidRun(config, 0, calls)
    ensures Run(EMPTY_STORE, calls).1 == RefRun(map[], calls).1
  {
    RunSimulates(config, EMPTY_STORE, map[], 0, calls);
  }

  lemma {:induction false} RunLength(store: Store, calls: seq<Call>)
    ensures |Run(store, calls).1| == |calls|
    decreases |calls|
  {
    if calls == [] {
    } else {
      RunLength(Take(store, calls[0].now, calls[0].requests).0, calls[1..]);
    }
  }

  lemma RefTakeRecords(histories: Histories, calls: seq<Call>, key: string)
    ensures calls != [] ==>
              var (histories', outcome) := RefTake(histories, calls[0].now, calls[0].requests);
              HistoryOf(histories', key) == HistoryOf(histories, key)
                + if outcome.allowed && key in Keys(calls[0].requests) then [calls[0].now] else []
  {
    if calls != [] {
      hide RefOutcome;
      RecordKeepsOthers(histories, calls[0].now, calls[0].requests, key);
    }
  }

  lemma {:induction false} RefRunRecords(histories: Histories, calls: seq<Call>, key: string)
    ensures |RefRun(histories, calls).1| == |calls|
    ensures HistoryOf(RefRun(histories, calls).0, key)
              == HistoryOf(histories, key) + Admissions(calls, RefRun(histories, calls).1, key)
    decreases |calls|
  {
    RefTakeRecords(histories, calls, key);
    hide RefTake, HistoryOf, Keys;
    if calls == [] {
    } else {
      var (histories', outcome) := RefTake(histories, calls[0].now, calls[0].requests);
      RefRunRecords(histories', calls[1..], key);
      assert RefRun(histories, calls).1 == [outcome] + RefRun(histories', calls[1..]).1;
      assert RefRun(histories, calls).1[1..] == RefRun(histories', calls[1..]).1;
    }
  }

  /** What the callers saw admitted is, for every key, a legal history of the reference limiter. */
  lemma RunAdmissionsLegal(config: Config, calls: seq<Call>, key: string)
    requires ValidConfig(config) && ValidRun(config, 0, calls) && key in config
    ensures |Run(EMPTY_STORE, calls).1| == |calls|
    ensures Legal(config[key], Admissions(calls, Run(EMPTY_STORE, calls).1, key))
  {
    RunSimulates(config, EMPTY_STORE, map[], 0, calls);
    hide Legal, StateTTL, StateOf, Request.Validate, Take, RefTake;
    RefRunRecords(map[], calls, key);
    assert HistoryOf(map[], key) + Admissions(calls, Run(EMPTY_STORE, calls).1, key)
        == Admissions(calls, Run(EMPTY_STORE, calls).1, key);
  }

  /** The promised bound of each algorithm, on the admissions callers of the real limiter saw in any run. */
  lemma RunBounds(config: Config, calls: seq<Call>, key: string, from: nat, to: nat, window: int)
    requires ValidConfig(config) && ValidRun(config, 0, calls) && key in config && from <= to
    ensures |Run(EMPTY_STORE, calls).1| == |calls|
    ensures var r, hist := config[key], Admissions(calls, Run(EMPTY_STORE, calls).1, key);
            match r.algorithm
            case TokenBucket =>
              CountIn(hist, from, to + 1) as real <= r.burst as real + Gain(to - from, r.tokensPerSecond)
            case LeakyBucket =>
              CountIn(hist, from, to + 1) as real <= r.capacity as real + Gain(to - from, r.leakRatePerSecond)
            case SlidingWindowLog => CountIn(hist, to - r.window + 1, to + 1) <= r.limit
            case FixedWindow =>
              && AlignedCount(hist, r.window, window) <= r.limit
              && CountIn(hist, to - r.window + 1, to + 1) <= 2 * r.limit
            case SlidingWindowCounter =>
              && AlignedCount(hist, r.window, window) <= r.limit
              && CountIn(hist, to - r.window + 1, to + 1) < 2 * r.limit
  {
    hide Legal, StateOf, Run, Gain, Admissions;
    RunAdmissionsLegal(config, calls, key);
    var r, hist := config[key], Admissions(calls, Run(EMPTY_STORE, calls).1, key);
    match r.algorithm
    case TokenBucket => TokenAdmissionBound(r, hist, from, to);
    case LeakyBucket => LeakyAdmissionBound(r, hist, from, to);
    case SlidingWindowLog => SlidingLogLimit(r, hist, to);
    case FixedWindow =>
      FixedWindowLimit(r, hist, window);
      FixedIntervalLimit(r, hist, to);
    case SlidingWindowCounter =>
      SlidingCounterLimit(r, hist, window);
      SlidingIntervalLimit(r, hist, to);
  }

  // ---------- what expiry leaves behind ----------

  predicate InTime(from: nat, calls: seq<Call>)
    decreases |calls|
  {
    calls != [] ==> from <= calls[0].now && InTime(calls[0].now, calls[1..])
  }

  /** Every stored state expires at some time after `since`. */
  predicate ExpiresAfter(items: map<string, State>, since: int) {
    forall key :: key in items ==> items[key].expiresAt.Some? && items[key].expiresAt.value > since
  }

  /** No state expired before the last sweep. */
  predicate SweptSince(store: Store, clock: nat) {
    if store.cleanupAt.None? then store.items == map[]
    else store.cleanupAt.value - 60_000_000_000 <= clock && ExpiresAfter(store.items, store.cleanupAt.value - 60_000_000_000)
  }

  lemma {:induction false} StagedExpireLater(items: map<string, State>, now: nat, requests: seq<Request>)
    requires AllValid(requests)
    ensures ExpiresAfter(Evaluate(items, now, requests).updates, now)
  {
    if requests == [] {
    } else {
      hide Apply, StateTTL, Lookup, Request.Validate;
      StagedExpireLater(items, now, requests[..|requests| - 1]);
      TTLFits(requests[|requests| - 1]);
    }
  }

  lemma TakeSweeps(store: Store, clock: nat, now: nat, requests: seq<Request>)
    requires SweptSince(store, clock) && clock <= now
    ensures SweptSince(Take(store, now, requests).0, now)
    ensures requests != [] ==> ExpiresAfter(Take(store, now, requests).0.items, now - 60_000_000_000)
  {
    FirstErrorMeaning(requests);
    if AllValid(requests) { StagedExpireLater(Swept(store, now).items, now, requests); }
    hide Evaluate, FirstError, Request.Validate;
  }

  lemma {:induction false} RunSweeps(store: Store, clock: nat, calls: seq<Call>)
    requires SweptSince(store, clock) && InTime(clock, calls)
    ensures SweptSince(Run(store, calls).0, EndTime(clock, calls))
    ensures calls != [] && calls[|calls| - 1].requests != [] ==>
              ExpiresAfter(Run(store, calls).0.items, EndTime(clock, calls) - 60_000_000_000)
    decreases |calls|
  {
    if calls == [] {
    } else {
      hide Take, SweptSince, ExpiresAfter;
      var now := calls[0].now;
      TakeSweeps(store, clock, now, calls[0].requests);
      RunSweeps(Take(store, now, calls[0].requests).0, now, calls[1..]);
      assert EndTime(now, calls[1..]) == EndTime(clock, calls);
    }
  }

  /** Over every run: after a call with requests, no state is stored that expired more than a minute before. */
  lemma NoStaleStates(calls: seq<Call>)
    requires InTime(0, calls) && calls != [] && calls[|calls| - 1].requests != []
    ensures ExpiresAfter(Run(EMPTY_STORE, calls).0.items, EndTime(0, calls) - 60_000_000_000)
  {
    RunSweeps(EMPTY_STORE, 0, calls);
  }
}
