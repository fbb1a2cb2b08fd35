/**
 Laws that hold for all five algorithms: forgetting an expired state changes no decision, and
 the retry delay of a denial is long enough.
 */
module RateLimitLaws {
  import opened RateLimitRequest
  import opened RateLimitApply
  import opened RateLimitHistory
  import opened RateLimitBuckets
  import opened RateLimitWindows

  lemma WindowSplit(now: nat, window: int)
    requires window > 0
    ensures now == WindowOf(now, window) * window + Elapsed(now, window)
    ensures 0 <= Elapsed(now, window) < window
  {
  }

  /** A time at least `window - elapsed` later lies in a later aligned window. */
  lemma NextWindow(now: nat, later: nat, window: int)
    requires window > 0 && later >= now + window - Elapsed(now, window)
    ensures WindowOf(later, window) > WindowOf(now, window)
  {
    var id := WindowOf(now, window);
    WindowSplit(now, window);
    WindowMonotone(now, later, window);
    WindowBounds(later, window, id);
  }

  // ---------- eviction ----------

  lemma RefilledFull(request: Request, hist: History, now: nat)
    requires request.Valid() && request.algorithm.TokenBucket? && Legal(request, hist) && hist != []
    requires now >= Last(hist) + StateTTL(request)
    ensures Refilled(now, request, StateOf(request, hist)) == request.burst as real
  {
    TokenShape(request, hist);
    MillisUpSuffices(request.burst as real, request.tokensPerSecond, now - Last(hist));
  }

  lemma LeakedEmpty(request: Request, hist: History, now: nat)
    requires request.Valid() && request.algorithm.LeakyBucket? && Legal(request, hist) && hist != []
    requires now >= Last(hist) + StateTTL(request)
    ensures Leaked(now, request, StateOf(request, hist)) == 0.0
  {
    LeakyShape(request, hist);
    MillisUpSuffices(request.capacity as real, request.leakRatePerSecond, now - Last(hist));
  }

  lemma TwoWindowsLater(at: nat, now: nat, window: int)
    requires window > 0 && now >= at + 2 * window
    ensures WindowOf(now, window) >= WindowOf(at, window) + 2
  {
    NextWindow(at, at + window, window) by { WindowSplit(at, window); }
    NextWindow(at + window, now, window) by { WindowSplit(at + window, window); }
  }

  ghost predicate DecidesAsFresh(request: Request, hist: History, now: nat)
    requires request.Valid()
  {
    var kept, anew := Decide(request, hist, now), Decide(request, [], now);
    && kept.allowed && anew.allowed && kept.retry == anew.retry == 0
    && Stamped(request, now, kept.next) == Stamped(request, now, anew.next)
  }

  lemma BucketForgets(request: Request, hist: History, now: nat)
    requires request.Valid() && Legal(request, hist) && hist != []
    requires request.algorithm.TokenBucket? || request.algorithm.LeakyBucket?
    requires now >= Last(hist) + StateTTL(request)
    ensures DecidesAsFresh(request, hist, now)
  {
    if request.algorithm.TokenBucket? {
      TokenShape(request, hist);
      RefilledFull(request, hist, now);
    } else {
      LeakyShape(request, hist);
      LeakedEmpty(request, hist, now);
    }
    hide StateTTL, MillisUp, Gain;
  }

  lemma WindowForgets(request: Request, hist: History, now: nat)
    requires request.Valid() && Legal(request, hist) && hist != []
    requires request.algorithm.FixedWindow? || request.algorithm.SlidingWindowCounter?
    requires now >= Last(hist) + StateTTL(request)
    ensures DecidesAsFresh(request, hist, now)
  {
    TwoWindowsLater(Last(hist), now, request.window);
    WindowMonotone(0, Last(hist), request.window);
    WeightedRange(0, 0, request.window, Elapsed(now, request.window));
    assert WindowOf(0, request.window) == 0;
    hide WindowOf, Elapsed, Weighted;
    if request.algorithm.FixedWindow? {
      FixedShape(request, hist);
    } else {
      SlidingShape(request, hist);
    }
  }

  lemma LogForgets(request: Request, hist: History, now: nat)
    requires request.Valid() && Legal(request, hist) && hist != [] && request.algorithm.SlidingWindowLog?
    requires now >= Last(hist) + StateTTL(request)
    ensures DecidesAsFresh(request, hist, now)
  {
    LogShape(request, hist);
    LegalIsSorted(request, hist);
    LogPruned(request, hist, now);
    PruneAll(hist, now - request.window);
  }

  /** Once its TTL has passed, a state decides exactly like no state at all, and leads to the same new state. */
  lemma EvictionHarmless(request: Request, hist: History, now: nat)
    requires request.Valid() && Legal(request, hist) && hist != []
    requires now >= Last(hist) + StateTTL(request)
    ensures DecidesAsFresh(request, hist, now)
  {
    match request.algorithm
    case TokenBucket => BucketForgets(request, hist, now);
    case FixedWindow => WindowForgets(request, hist, now);
    case SlidingWindowCounter => WindowForgets(request, hist, now);
    case SlidingWindowLog => LogForgets(request, hist, now);
    case LeakyBucket => BucketForgets(request, hist, now);
  }

  // ---------- retry delays ----------

  lemma TokenRetry(request: Request, hist: History, now: nat, later: nat)
    requires request.Valid() && request.algorithm.TokenBucket? && Legal(request, hist) && UpTo(hist, now)
    requires later >= now + Decide(request, hist, now).retry
    ensures Decide(request, hist, later).allowed
  {
    if hist != [] {
      TokenShape(request, hist);
      var rate, at := request.tokensPerSecond, Last(hist);
      var tokens := Refilled(now, request, StateOf(request, hist));
      SecondsScale(now - at, later - at, rate);
      if tokens < 1.0 { MillisUpSuffices(1.0 - tokens, rate, later - now); }
    }
  }

  lemma LeakyRetry(request: Request, hist: History, now: nat, later: nat)
    requires request.Valid() && request.algorithm.LeakyBucket? && Legal(request, hist) && UpTo(hist, now)
    requires later >= now + Decide(request, hist, now).retry
    ensures Decide(request, hist, later).allowed
  {
    var token := request.(algorithm := TokenBucket, burst := request.capacity,
                          tokensPerSecond := request.leakRatePerSecond);
    TokenAndLeakyAgree(token, request, hist);
    TokenRetry(token, hist, now, later);
  }

  lemma FixedRetry(request: Request, hist: History, now: nat, later: nat)
    requires request.Valid() && request.algorithm.FixedWindow? && Legal(request, hist) && UpTo(hist, now)
    requires later >= now + Decide(request, hist, now).retry
    ensures Decide(request, hist, later).allowed
  {
    var id, id' := WindowOf(now, request.window), WindowOf(later, request.window);
    FixedWindowExact(request, hist, now);
    FixedWindowExact(request, hist, later);
    if !Decide(request, hist, now).allowed { NextWindow(now, later, request.window); }
    WindowMonotone(now, later, request.window);
    if id < id' { EmptyAfter(request, hist, now, id'); }
  }

  /** Windows after the one of `now` have no admissions yet. */
  lemma EmptyAfter(request: Request, hist: History, now: nat, id: int)
    requires request.Valid() && request.window > 0 && Legal(request, hist) && UpTo(hist, now)
    requires WindowOf(now, request.window) < id
    ensures AlignedCount(hist, request.window, id) == 0
  {
    if hist != [] { WindowMonotone(Last(hist), now, request.window); }
    AlignedCountBeyond(request, hist, id);
  }

  /** Once `window / count` of the next window has passed, a full previous window weighs at most count - 1. */
  lemma WeightedAfterWait(count: int, window: int, elapsed: int)
    requires count > 0 && 0 <= elapsed <= window && window > 0
    requires elapsed as real >= window as real / count as real
    ensures Weighted(0, count, window, elapsed) <= count as real - 1.0
  {
    var c, w := count as real, window as real;
    var weight := c * (window - elapsed) as real;
    assert elapsed as real * c >= w;
    assert (window - elapsed) as real == w - elapsed as real;
    assert weight == c * w - c * elapsed as real <= (c - 1.0) * w;
    DivideMonotone(weight, c - 1.0, w);
    assert Weighted(0, count, window, elapsed) == weight / w;
  }

  lemma DivideMonotone(x: real, bound: real, w: real)
    requires w > 0.0 && x <= bound * w
    ensures x / w <= bound
  {
  }

  /** The elapsed time after a full window's denial, when the retry delay ends in the next window. */
  lemma ElapsedAfterWait(now: nat, later: nat, window: int, extra: int)
    requires window > 0 && extra >= 0 && later >= now + window - Elapsed(now, window) + extra
    requires WindowOf(later, window) == WindowOf(now, window) + 1
    ensures Elapsed(later, window) >= extra
  {
    WindowSplit(now, window);
    WindowSplit(later, window);
    var id := WindowOf(now, window);
    assert (id + 1) * window == id * window + window;
  }

  /** A sliding-counter denial waits to the window boundary, and past it when the window itself is full. */
  lemma SlidingDelay(request: Request, now: nat, state: State)
    requires request.Valid() && request.algorithm.SlidingWindowCounter?
    requires !Apply(now, request, state).allowed
    ensures var window, current := request.window, RolledCounts(WindowOf(now, request.window), state).0;
            Apply(now, request, state).retry >= window - Elapsed(now, window) + ExtraWait(current, request.limit, window)
  {
    hide WindowOf, Elapsed, Weighted, ExtraWait;
  }

  lemma FullWindowWait(limit: int, window: int)
    requires limit > 0
    ensures ExtraWait(limit, limit, window) == Ceil(window as real / limit as real)
  {
    assert (limit + 1 - limit) as real * window as real == window as real;
  }

  lemma ExtraNonNegative(current: int, limit: int, window: int)
    requires window > 0
    ensures ExtraWait(current, limit, window) >= 0
  {
    if current > 0 && current + 1 > limit {
      assert (current + 1 - limit) as real * window as real > 0.0;
      assert (current + 1 - limit) as real * window as real / current as real > 0.0;
    }
  }

  lemma SlidingRetry(request: Request, hist: History, now: nat, later: nat)
    requires request.Valid() && request.algorithm.SlidingWindowCounter? && Legal(request, hist) && UpTo(hist, now)
    requires later >= now + Decide(request, hist, now).retry
    ensures Decide(request, hist, later).allowed
  {
    RetryOfDecision(now, request, StateOf(request, hist));
    if !Decide(request, hist, now).allowed { SlidingDelay(request, now, StateOf(request, hist)); }
    SlidingRollOver(request, hist, now);
    hide WindowOf, Elapsed, Weighted, Apply, StateOf, Legal, RolledCounts, ExtraWait;
    FullWindowWait(request.limit, request.window);
    var window, limit := request.window, request.limit;
    var id, id' := WindowOf(now, window), WindowOf(later, window);
    var current, previous := AlignedCount(hist, window, id), AlignedCount(hist, window, id - 1);
    SlidingCounterExact(request, hist, now);
    SlidingCounterExact(request, hist, later);
    SlidingCounterLimit(request, hist, id);
    ExtraNonNegative(current, limit, window);
    WindowSplit(now, window);
    WindowSplit(later, window);
    WindowMonotone(now, later, window);
    WeightedRange(current, previous, window, Elapsed(now, window));
    WeightedRange(0, current, window, Elapsed(later, window));
    WeightedRange(0, 0, window, Elapsed(later, window));
    if !Decide(request, hist, now).allowed {
      NextWindow(now, later, window);
    }
    if id' > id { EmptyAfter(request, hist, now, id'); }
    if id' > id + 1 { EmptyAfter(request, hist, now, id' - 1); }
    if id' == id {
      ElapsedGrows(now, later, window);
      WeightedMonotone(current, previous, window, Elapsed(now, window), Elapsed(later, window));
    } else if id' == id + 1 && current == limit {
      ElapsedAfterWait(now, later, window, Ceil(window as real / current as real));
      WeightedAfterWait(current, window, Elapsed(later, window));
    }
  }

  lemma RetryOfDecision(now: nat, request: Request, state: State)
    requires request.Valid()
    ensures Apply(now, request, state).allowed <==> Apply(now, request, state).retry <= 0
    ensures Apply(now, request, state).retry >= 0
  {
    hide WindowOf, Elapsed, Weighted, ExtraWait, MillisUp, Refilled, Leaked, Prune;
  }

  lemma ElapsedGrows(now: nat, later: nat, window: int)
    requires window > 0 && now <= later && WindowOf(now, window) == WindowOf(later, window)
    ensures Elapsed(now, window) <= Elapsed(later, window)
  {
    WindowSplit(now, window);
    WindowSplit(later, window);
  }

  lemma {:induction false} PruneShrinks(events: seq<int>, cutoff: int)
    ensures |Prune(events, cutoff)| <= |events|
    ensures events != [] && events[0] <= cutoff ==> |Prune(events, cutoff)| < |events|
    ensures Prune(events, cutoff) != [] ==> Prune(events, cutoff)[0] > cutoff
  {
    if events != [] && events[0] <= cutoff { PruneShrinks(events[1..], cutoff); }
  }

  lemma LogRetry(request: Request, hist: History, now: nat, later: nat)
    requires request.Valid() && request.algorithm.SlidingWindowLog? && Legal(request, hist) && UpTo(hist, now)
    requires later >= now + Decide(request, hist, now).retry
    ensures Decide(request, hist, later).allowed
  {
    var recent := Prune(hist, now - request.window);
    LogPruned(request, hist, now);
    LogPruned(request, hist, later);
    PruneTwice(hist, now - request.window, later - request.window);
    PruneShrinks(recent, later - request.window);
    PruneCounts(request, hist, now - request.window, now + 1);
    SlidingLogLimit(request, hist, now);
  }

  /**
   With no admission in between, a request denied with delay d is admitted at every time from
   now + d on; a request admitted now (delay zero) is admitted at every later time.
   */
  lemma RetrySuffices(request: Request, hist: History, now: nat, later: nat)
    requires request.Valid() && Legal(request, hist) && UpTo(hist, now)
    requires later >= now + Decide(request, hist, now).retry
    ensures Decide(request, hist, later).allowed
  {
    match request.algorithm
    case TokenBucket => TokenRetry(request, hist, now, later);
    case FixedWindow => FixedRetry(request, hist, now, later);
    case SlidingWindowCounter => SlidingRetry(request, hist, now, later);
    case SlidingWindowLog => LogRetry(request, hist, now, later);
    case LeakyBucket => LeakyRetry(request, hist, now, later);
  }

  // ---------- 64-bit durations ----------

  const MAX_INT64: int := 9_223_372_036_854_775_807

  lemma MillisUpBound(amount: real, rate: real)
    requires 0.0 < amount <= MAX_CAPACITY as real && 0.001 <= rate
    ensures 0 < MillisUp(amount, rate) <= 1_000_000_000_000 * MILLISECOND
  {
    assert amount <= 1_000_000_000.0 * 0.001 <= 1_000_000_000.0 * rate;
    QuotientBound(amount, rate, 1_000_000_000.0);
  }

  lemma QuotientBound(amount: real, rate: real, bound: real)
    requires 0.0 < amount <= bound * rate && rate > 0.0
    ensures 0.0 < amount / rate <= bound
  {
  }

  /** Every lifetime the validated parameters allow is a positive 64-bit duration. */
  lemma TTLFits(request: Request)
    requires request.Valid()
    ensures 0 < StateTTL(request) <= MAX_INT64
  {
    match request.algorithm
    case TokenBucket => MillisUpBound(request.burst as real, request.tokensPerSecond);
    case LeakyBucket => MillisUpBound(request.capacity as real, request.leakRatePerSecond);
    case _ =>
  }
}
