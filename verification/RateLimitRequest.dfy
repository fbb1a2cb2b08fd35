/**
 Rate-limit requests and their validation (cache/store/rate_limit.go).

 Durations are whole nanoseconds, as in Go's time.Duration.  Rates are real numbers:
 floating-point rounding is not modelled, and reals have no NaN or infinity to reject.
 */
module RateLimitRequest {
  import opened Wrappers

  const MILLISECOND: int := 1_000_000
  const MAX_LOG_LIMIT := 10_000
  const MAX_RATE: real := 1_000_000.0
  const MAX_CAPACITY := 1_000_000
  const MAX_WINDOW: int := 86_400_000_000_000

  datatype Algorithm =
    | TokenBucket
    | FixedWindow
    | SlidingWindowCounter
    | SlidingWindowLog
    | LeakyBucket
    | Unsupported(name: string)

  datatype Request = Request(
    key: string,
    algorithm: Algorithm,
    tokensPerSecond: real,
    burst: int,
    limit: int,
    window: int,
    leakRatePerSecond: real,
    capacity: int)
  {
    function Validate(): (err: Option<Error>) {
      if key == "" then Some(KeyRequired)
      else match algorithm
        case TokenBucket =>
          if !ValidRate(tokensPerSecond) || burst < 1 || burst > MAX_CAPACITY
          then Some(InvalidTokenBucket) else None
        case FixedWindow =>
          if limit < 1 || limit > MAX_CAPACITY || !ValidWindow(window)
          then Some(InvalidWindowCounter) else None
        case SlidingWindowCounter =>
          if limit < 1 || limit > MAX_CAPACITY || !ValidWindow(window)
          then Some(InvalidWindowCounter) else None
        case SlidingWindowLog =>
          if limit < 1 || limit > MAX_LOG_LIMIT || !ValidWindow(window)
          then Some(InvalidSlidingWindowLog) else None
        case LeakyBucket =>
          if !ValidRate(leakRatePerSecond) || capacity < 1 || capacity > MAX_CAPACITY
          then Some(InvalidLeakyBucket) else None
        case Unsupported(name) => Some(UnsupportedAlgorithm(name))
    }

    predicate Valid() {
      Validate().None?
    }
  }

  datatype Error =
    | KeyRequired
    | InvalidTokenBucket
    | InvalidWindowCounter
    | InvalidSlidingWindowLog
    | InvalidLeakyBucket
    | UnsupportedAlgorithm(name: string)
    | DuplicateKey(key: string)
    | TooManyRequests

  predicate ValidRate(rate: real) {
    0.001 <= rate <= MAX_RATE
  }

  predicate ValidWindow(window: int) {
    MILLISECOND <= window <= MAX_WINDOW
  }

  /** What a limiter reports for one batch: admission, the retry delay, or an error. */
  datatype Outcome = Outcome(allowed: bool, retryAfter: int, error: Option<Error>)

  /** The keys of a batch are pairwise different. */
  predicate DistinctKeys(requests: seq<Request>) {
    forall i, j :: 0 <= i < j < |requests| ==> requests[i].key != requests[j].key
  }

  predicate AllValid(requests: seq<Request>) {
    forall r :: r in requests ==> r.Valid()
  }
}
