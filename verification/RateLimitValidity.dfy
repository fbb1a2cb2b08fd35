/**
 Which batches the two limiters refuse without deciding them, in numbers (cache/store/rate_limit.go,
 cache/redis/rate_limit.go): an empty key, a parameter out of bounds, a key used twice, too many requests.
 Everything else is decided, and on an empty store admitted.
 */
module RateLimitValidity {
  import opened Wrappers
  import opened RateLimitRequest
  import opened RateLimitApply
  import opened RateLimitMemory
  import opened RateLimitRedis

  /** The parameters of the request's own algorithm lie within the documented bounds; no other field matters. */
  ghost predicate InBounds(r: Request) {
    match r.algorithm
    case TokenBucket => 0.001 <= r.tokensPerSecond <= 1000000.0 && 1 <= r.burst <= 1000000
    case LeakyBucket => 0.001 <= r.leakRatePerSecond <= 1000000.0 && 1 <= r.capacity <= 1000000
    case FixedWindow => 1 <= r.limit <= 1000000 && 1000000 <= r.window <= 24 * 3600 * 1000000000
    case SlidingWindowCounter => 1 <= r.limit <= 1000000 && 1000000 <= r.window <= 24 * 3600 * 1000000000
    case SlidingWindowLog => 1 <= r.limit <= 10000 && 1000000 <= r.window <= 24 * 3600 * 1000000000
    case Unsupported(_) => false
  }

  function OutOfBounds(a: Algorithm): Error {
    match a
    case TokenBucket => InvalidTokenBucket
    case LeakyBucket => InvalidLeakyBucket
    case FixedWindow => InvalidWindowCounter
    case SlidingWindowCounter => InvalidWindowCounter
    case SlidingWindowLog => InvalidSlidingWindowLog
    case Unsupported(name) => UnsupportedAlgorithm(name)
  }

  /** What is wrong with the i-th request of a batch, if anything. */
  ghost function Complaint(requests: seq<Request>, i: nat): Option<Error>
    requires i < |requests|
  {
    var r := requests[i];
    if r.key == "" then Some(KeyRequired)
    else if !InBounds(r) then Some(OutOfBounds(r.algorithm))
    else if exists j :: 0 <= j < i && requests[j].key == r.key then Some(DuplicateKey(r.key))
    else None
  }

  ghost predicate WellFormed(requests: seq<Request>) {
    forall i :: 0 <= i < |requests| ==> Complaint(requests, i).None?
  }

  /** The i-th request is the first one with something wrong. */
  ghost predicate FirstComplaint(requests: seq<Request>, i: nat, error: Error) {
    && i < |requests| && Complaint(requests, i) == Some(error)
    && forall j :: 0 <= j < i ==> Complaint(requests, j).None?
  }

  lemma ValidInBounds(r: Request)
    ensures r.Validate() == if r.key == "" then Some(KeyRequired) else if InBounds(r) then None else Some(OutOfBounds(r.algorithm))
  {
  }

  lemma PrefixComplaints(requests: seq<Request>, n: nat)
    requires n <= |requests|
    ensures forall i :: 0 <= i < n ==> Complaint(requests[..n], i) == Complaint(requests, i)
  {
    hide InBounds, OutOfBounds;
  }

  lemma {:induction false} ErrorIsComplaint(requests: seq<Request>)
    ensures FirstError(requests).None? <==> WellFormed(requests)
    ensures forall i, e :: FirstComplaint(requests, i, e) ==> FirstError(requests) == Some(e)
  {
    if requests == [] {
    } else {
      var n := |requests| - 1;
      var front, r := requests[..n], requests[n];
      ErrorIsComplaint(front);
      ValidInBounds(r);
      PrefixComplaints(requests, n);
      hide InBounds, OutOfBounds, Request.Validate;
      assert FirstError(front).None? ==> FirstError(requests) == Complaint(requests, n) by {
        assert r.key in Keys(front) <==> exists j :: 0 <= j < n && requests[j].key == r.key;
      }
      forall i: nat, e | FirstComplaint(requests, i, e) ensures FirstError(requests) == Some(e) {
        if i < n {
          assert FirstComplaint(front, i, e);
        }
      }
    }
  }

  // ---------- the in-process limiter ----------

  /**
   On any store, a batch is refused with an error exactly if some request of it is wrong, and with the error of
   the first one that is; nothing is stored then.
   */
  lemma MemoryRefuses(store: Store, now: nat, requests: seq<Request>)
    ensures Take(store, now, requests).1.error.None? <==> WellFormed(requests)
    ensures forall i, e :: FirstComplaint(requests, i, e) ==> Take(store, now, requests) == (Swept(store, now), Outcome(false, 0, Some(e)))
  {
    ErrorIsComplaint(requests);
  }

  lemma FreshAdmits(r: Request, now: nat)
    requires r.Valid()
    ensures Apply(now, r, ZERO_STATE).allowed
  {
    if r.algorithm.SlidingWindowCounter? {
      NoWeight(r.window, Elapsed(now, r.window));
    }
  }

  lemma NoWeight(window: int, elapsed: int)
    requires window > 0
    ensures Weighted(0, 0, window, elapsed) == 0.0 && WeightedMillis(0, 0, window, elapsed) == 0.0
  {
    assert 0 as real * (window - elapsed) as real == 0.0;
  }

  lemma {:induction false} FreshBatch(now: nat, requests: seq<Request>)
    requires AllValid(requests)
    ensures !Evaluate(map[], now, requests).denied
  {
    if requests == [] {
    } else {
      hide Apply, StateTTL, Request.Validate;
      FreshBatch(now, requests[..|requests| - 1]);
      FreshAdmits(requests[|requests| - 1], now);
    }
  }

  /** On an empty store every well-formed batch is admitted. */
  lemma MemoryAdmitsNew(now: nat, requests: seq<Request>)
    requires WellFormed(requests)
    ensures Take(EMPTY_STORE, now, requests).1 == Outcome(true, 0, None)
  {
    ErrorIsComplaint(requests);
    FirstErrorMeaning(requests);
    FreshBatch(now, requests);
    assert Unexpired(map[], now) == map[];
    hide Evaluate, Request.Validate;
  }

  /** One request on an empty store, for each algorithm in numbers and whatever its other fields hold. */
  lemma AloneOnEmpty(now: nat, r: Request)
    ensures var outcome := Take(EMPTY_STORE, now, [r]).1;
            if r.key == "" then outcome == Outcome(false, 0, Some(KeyRequired))
            else match r.algorithm
              case TokenBucket =>
                outcome == (if 0.001 <= r.tokensPerSecond <= 1000000.0 && 1 <= r.burst <= 1000000
                            then Outcome(true, 0, None) else Outcome(false, 0, Some(InvalidTokenBucket)))
              case LeakyBucket =>
                outcome == (if 0.001 <= r.leakRatePerSecond <= 1000000.0 && 1 <= r.capacity <= 1000000
                            then Outcome(true, 0, None) else Outcome(false, 0, Some(InvalidLeakyBucket)))
              case FixedWindow =>
                outcome == (if 1 <= r.limit <= 1000000 && 1000000 <= r.window <= 86400000000000
                            then Outcome(true, 0, None) else Outcome(false, 0, Some(InvalidWindowCounter)))
              case SlidingWindowCounter =>
                outcome == (if 1 <= r.limit <= 1000000 && 1000000 <= r.window <= 86400000000000
                            then Outcome(true, 0, None) else Outcome(false, 0, Some(InvalidWindowCounter)))
              case SlidingWindowLog =>
                outcome == (if 1 <= r.limit <= 10000 && 1000000 <= r.window <= 86400000000000
                            then Outcome(true, 0, None) else Outcome(false, 0, Some(InvalidSlidingWindowLog)))
              case Unsupported(name) => outcome == Outcome(false, 0, Some(UnsupportedAlgorithm(name)))
  {
    hide Take;
    MemoryRefuses(EMPTY_STORE, now, [r]);
    if Complaint([r], 0).Some? {
      assert FirstComplaint([r], 0, Complaint([r], 0).value);
    } else {
      MemoryAdmitsNew(now, [r]);
    }
  }

  // ---------- the Redis limiter ----------

  /** More than a hundred requests are refused at once; up to a hundred, exactly what the in-process limiter refuses. */
  lemma RedisRefuses(ks: Keyspace, now: nat, requests: seq<Request>)
    ensures |requests| > 100 ==> TakeRedis(ks, now, requests) == (ks, Outcome(false, 0, Some(TooManyRequests)))
    ensures |requests| <= 100 ==>
              && (TakeRedis(ks, now, requests).1.error.None? <==> WellFormed(requests))
              && forall i, e :: FirstComplaint(requests, i, e) ==> TakeRedis(ks, now, requests) == (ks, Outcome(false, 0, Some(e)))
  {
    ErrorIsComplaint(requests);
    hide JudgeAll, WriteAll;
  }

  lemma FreshJudge(r: Request, now: nat)
    requires r.Valid()
    ensures Pruned(map[], now, r) == map[] && Judge(map[], now, r).retry == 0
  {
    if r.algorithm.SlidingWindowCounter? {
      var window := Millis(r.window);
      NoWeight(window, now % window);
    }
  }

  lemma {:induction false} FreshLoop(now: nat, requests: seq<Request>)
    requires AllValid(requests)
    ensures JudgeAll(map[], now, requests).ks == map[] && JudgeAll(map[], now, requests).maxRetry == 0
  {
    if requests == [] {
    } else {
      hide Pruned, Judge, Request.Validate;
      FreshLoop(now, requests[..|requests| - 1]);
      FreshJudge(requests[|requests| - 1], now);
    }
  }

  /** On an empty key space every well-formed batch of up to a hundred requests is admitted. */
  lemma RedisAdmitsNew(now: nat, requests: seq<Request>)
    requires WellFormed(requests) && |requests| <= 100
    ensures TakeRedis(map[], now, requests).1 == Outcome(true, 0, None)
  {
    ErrorIsComplaint(requests);
    FirstErrorMeaning(requests);
    FreshLoop(now, requests);
    hide JudgeAll, WriteAll, Request.Validate;
  }
}
