/**
 When the retry delay of a denial is not a millisecond too long: always for four of the algorithms, and for
 the sliding-window counter exactly under a condition on the counts at the denial.
 */
module RateLimitTightness {
  import opened RateLimitRequest
  import opened RateLimitApply
  import opened RateLimitHistory
  import opened RateLimitBuckets
  import opened RateLimitWindows
  import opened RateLimitLaws

  /** Up to a millisecond before the delay ends, with no admission in between, the request is still denied. */
  ghost predicate Tight(request: Request, hist: History, now: nat)
    requires request.Valid()
  {
    forall later: nat :: now <= later <= now + Decide(request, hist, now).retry - MILLISECOND ==>
      !Decide(request, hist, later).allowed
  }

  // ---------- buckets, fixed window and log ----------

  lemma TokenTight(request: Request, hist: History, now: nat, later: nat)
    requires request.Valid() && request.algorithm.TokenBucket? && Legal(request, hist) && UpTo(hist, now)
    requires !Decide(request, hist, now).allowed
    requires now <= later <= now + Decide(request, hist, now).retry - MILLISECOND
    ensures !Decide(request, hist, later).allowed
  {
    TokenShape(request, hist);
    var rate, at := request.tokensPerSecond, Last(hist);
    var tokens := Refilled(now, request, StateOf(request, hist));
    SecondsScale(now - at, later - at, rate);
    MillisUpMinimal(1.0 - tokens, rate, later - now);
  }

  lemma MillisUpMinimal(amount: real, rate: real, waited: int)
    requires rate > 0.0 && amount > 0.0
    requires 0 <= waited <= AtLeastOneMilli(MillisUp(amount, rate)) - MILLISECOND
    ensures Gain(waited, rate) < amount
  {
    var millis := Ceil(amount / rate * 1000.0);
    assert millis >= 1;
    assert Seconds(waited) <= (millis - 1) as real / 1000.0 < amount / rate;
    assert Seconds(waited) * rate < amount / rate * rate == amount;
  }

  lemma BucketTight(request: Request, hist: History, now: nat)
    requires request.Valid() && Legal(request, hist) && UpTo(hist, now)
    requires request.algorithm.TokenBucket? || request.algorithm.LeakyBucket?
    requires !Decide(request, hist, now).allowed
    ensures Tight(request, hist, now)
  {
    forall later: nat | now <= later <= now + Decide(request, hist, now).retry - MILLISECOND
      ensures !Decide(request, hist, later).allowed
    {
      if request.algorithm.TokenBucket? {
        TokenTight(request, hist, now, later);
      } else {
        var token := request.(algorithm := TokenBucket, burst := request.capacity,
                              tokensPerSecond := request.leakRatePerSecond);
        TokenAndLeakyAgree(token, request, hist);
        TokenTight(token, hist, now, later);
      }
    }
  }

  lemma FixedTight(request: Request, hist: History, now: nat)
    requires request.Valid() && request.algorithm.FixedWindow? && Legal(request, hist) && UpTo(hist, now)
    requires !Decide(request, hist, now).allowed
    ensures Tight(request, hist, now)
  {
    forall later: nat | now <= later <= now + Decide(request, hist, now).retry - MILLISECOND
      ensures !Decide(request, hist, later).allowed
    {
      FixedWindowExact(request, hist, now);
      FixedWindowExact(request, hist, later);
      WindowSplit(now, request.window);
      WindowBounds(now, request.window, WindowOf(now, request.window));
      WindowBounds(later, request.window, WindowOf(now, request.window));
    }
  }

  lemma LogTight(request: Request, hist: History, now: nat)
    requires request.Valid() && request.algorithm.SlidingWindowLog? && Legal(request, hist) && UpTo(hist, now)
    requires !Decide(request, hist, now).allowed
    ensures Tight(request, hist, now)
  {
    forall later: nat | now <= later <= now + Decide(request, hist, now).retry - MILLISECOND
      ensures !Decide(request, hist, later).allowed
    {
      LogPruned(request, hist, now);
      LogPruned(request, hist, later);
      PruneTwice(hist, now - request.window, later - request.window);
      PruneShrinks(hist, now - request.window);
    }
  }

  // ---------- sliding-window counter ----------

  /** The counts at the denial from which the tightness of its delay can be read off. */
  predicate SlidingTight(request: Request, hist: History, now: nat)
    requires request.window > 0
  {
    var window, limit, id := request.window, request.limit, WindowOf(now, request.window);
    var current, previous := AlignedCount(hist, window, id), AlignedCount(hist, window, id - 1);
    || current >= limit - 1
    || Elapsed(now, window) > window - MILLISECOND
    || Weighted(current, previous, window, window - MILLISECOND) + 1.0 > limit as real
  }

  /** The delay of a sliding-counter denial: to the boundary, at least a millisecond, and on in a full window. */
  lemma SlidingDelayIs(request: Request, hist: History, now: nat)
    requires request.Valid() && request.algorithm.SlidingWindowCounter? && Legal(request, hist) && UpTo(hist, now)
    requires !Decide(request, hist, now).allowed
    ensures var window, limit := request.window, request.limit;
            var current := AlignedCount(hist, window, WindowOf(now, window));
            Decide(request, hist, now).retry
              == AtLeastOneMilli(window - Elapsed(now, window))
                 + if current == limit then Ceil(window as real / limit as real) else 0
  {
    var window, limit := request.window, request.limit;
    var current := AlignedCount(hist, window, WindowOf(now, window));
    SlidingRollOver(request, hist, now);
    SlidingCounterLimit(request, hist, WindowOf(now, window));
    FullWindowWait(limit, window);
    ExtraNonNegative(current, limit, window);
    assert current < limit ==> ExtraWait(current, limit, window) == 0;
    hide WindowOf, Elapsed, Weighted, ExtraWait, StateOf, Legal, RolledCounts;
  }

  /** Later in the same aligned window the counts are the same and only the weight has dropped. */
  lemma SameWindow(request: Request, hist: History, now: nat, later: nat)
    requires request.Valid() && request.algorithm.SlidingWindowCounter? && Legal(request, hist) && UpTo(hist, now)
    requires now <= later < now + request.window - Elapsed(now, request.window)
    ensures WindowOf(later, request.window) == WindowOf(now, request.window)
    ensures Elapsed(later, request.window) == Elapsed(now, request.window) + (later - now)
    ensures var window, id := request.window, WindowOf(now, request.window);
            Decide(request, hist, later).allowed <==>
            Weighted(AlignedCount(hist, window, id), AlignedCount(hist, window, id - 1), window, Elapsed(later, window))
              + 1.0 <= request.limit as real
  {
    hide Decide, Legal, Weighted;
    var window, id := request.window, WindowOf(now, request.window);
    WindowSplit(now, window);
    WindowSplit(later, window);
    WindowBounds(later, window, id);
    SlidingCounterExact(request, hist, later);
  }

  /** Before `window / count` of the next window has passed, a full previous window still weighs too much. */
  lemma WeightedBeforeWait(count: int, window: int, elapsed: int)
    requires count > 0 && 0 <= elapsed <= window && window > 0
    requires (elapsed as real) < window as real / count as real
    ensures Weighted(0, count, window, elapsed) > count as real - 1.0
  {
    var c, w := count as real, window as real;
    var weight := c * (window - elapsed) as real;
    ProductBound(elapsed as real, w, c);
    assert (window - elapsed) as real == w - elapsed as real;
    assert weight == c * w - c * elapsed as real > (c - 1.0) * w;
    DivideStrictly(weight, c - 1.0, w);
    assert Weighted(0, count, window, elapsed) == weight / w;
  }

  lemma ProductBound(x: real, w: real, c: real)
    requires c > 0.0 && x < w / c
    ensures c * x < w
  {
    assert c * x < c * (w / c) == w;
  }

  lemma DivideStrictly(x: real, bound: real, w: real)
    requires w > 0.0 && x > bound * w
    ensures x / w > bound
  {
  }

  /** A full window stays shut until the next one has run for `window / limit`. */
  lemma FullWindowTight(request: Request, hist: History, now: nat, later: nat)
    requires request.Valid() && request.algorithm.SlidingWindowCounter? && Legal(request, hist) && UpTo(hist, now)
    requires AlignedCount(hist, request.window, WindowOf(now, request.window)) == request.limit
    requires now <= later
    requires (later - now) as real
               < (request.window - Elapsed(now, request.window)) as real + request.window as real / request.limit as real
    ensures !Decide(request, hist, later).allowed
  {
    hide Decide, Legal, Weighted, StateOf;
    var window, limit, id := request.window, request.limit, WindowOf(now, request.window);
    var current, previous := AlignedCount(hist, window, id), AlignedCount(hist, window, id - 1);
    WindowSplit(now, window);
    if later < now + window - Elapsed(now, window) {
      SameWindow(request, hist, now, later);
      WeightedRange(current, previous, window, Elapsed(later, window));
    } else {
      var into := later - (now + window - Elapsed(now, window));
      AtMostAll(window, limit);
      assert 0 <= into < window;
      NextWindowAt(now, later, window, into);
      SlidingCounterExact(request, hist, later);
      EmptyAfter(request, hist, now, id + 1);
      WeightedBeforeWait(limit, window, into);
    }
  }

  lemma AtMostAll(window: int, limit: int)
    requires window > 0 && limit >= 1
    ensures window as real / limit as real <= window as real
  {
    assert window as real <= window as real * limit as real;
    DivideMonotone(window as real, window as real, limit as real);
  }

  lemma NextWindowAt(now: nat, later: nat, window: int, into: int)
    requires window > 0 && 0 <= into < window && later == now + window - Elapsed(now, window) + into
    ensures WindowOf(later, window) == WindowOf(now, window) + 1 && Elapsed(later, window) == into
  {
    var id := WindowOf(now, window);
    WindowSplit(now, window);
    assert (id + 1) * window == id * window + window;
    WindowBounds(later, window, id + 1);
    WindowSplit(later, window);
  }

  lemma SlidingFullTight(request: Request, hist: History, now: nat)
    requires request.Valid() && request.algorithm.SlidingWindowCounter? && Legal(request, hist) && UpTo(hist, now)
    requires !Decide(request, hist, now).allowed
    requires AlignedCount(hist, request.window, WindowOf(now, request.window)) == request.limit
    ensures Tight(request, hist, now)
  {
    hide Legal, StateOf, WindowOf, Elapsed;
    SlidingDelayIs(request, hist, now);
    WindowSplit(now, request.window);
    forall later: nat | now <= later <= now + Decide(request, hist, now).retry - MILLISECOND
      ensures !Decide(request, hist, later).allowed
    {
      hide Decide;
      FullWindowTight(request, hist, now, later);
    }
  }

  /** With room in the window the delay ends at the boundary, and the heaviest time before it decides. */
  lemma SlidingOpenExactly(request: Request, hist: History, now: nat)
    requires request.Valid() && request.algorithm.SlidingWindowCounter? && Legal(request, hist) && UpTo(hist, now)
    requires !Decide(request, hist, now).allowed
    requires AlignedCount(hist, request.window, WindowOf(now, request.window)) < request.limit
    requires Elapsed(now, request.window) <= request.window - MILLISECOND
    ensures var window, id := request.window, WindowOf(now, request.window);
            Tight(request, hist, now) <==>
            Weighted(AlignedCount(hist, window, id), AlignedCount(hist, window, id - 1), window, window - MILLISECOND)
              + 1.0 > request.limit as real
  {
    hide Legal, StateOf, WindowOf, Elapsed, Weighted, Apply;
    var window, id := request.window, WindowOf(now, request.window);
    var current, previous := AlignedCount(hist, window, id), AlignedCount(hist, window, id - 1);
    SlidingDelayIs(request, hist, now);
    WindowSplit(now, window);
    var end := now + window - Elapsed(now, window) - MILLISECOND;
    assert end == now + Decide(request, hist, now).retry - MILLISECOND;
    SameWindow(request, hist, now, end);
    forall later: nat | now <= later <= end
      ensures Weighted(current, previous, window, window - MILLISECOND) + 1.0 > request.limit as real ==>
                !Decide(request, hist, later).allowed
    {
      SameWindow(request, hist, now, later);
      WeightedMonotone(current, previous, window, Elapsed(later, window), window - MILLISECOND);
    }
  }

  /** One admission short of the limit, whatever weight was too much before stays too much up to the boundary. */
  lemma NearlyFull(current: int, previous: int, window: int, elapsed: int, limit: int)
    requires current == limit - 1 && previous >= 0 && window >= MILLISECOND && 0 <= elapsed <= window
    requires Weighted(current, previous, window, elapsed) + 1.0 > limit as real
    ensures Weighted(current, previous, window, window - MILLISECOND) + 1.0 > limit as real
  {
    var w := window as real;
    assert previous > 0 by {
      if previous == 0 {
        assert 0.0 * (window - elapsed) as real / w == 0.0;
      }
    }
    QuotientPositive(previous as real * MILLISECOND as real, w);
    assert window - (window - MILLISECOND) == MILLISECOND;
  }

  lemma QuotientPositive(x: real, w: real)
    requires x > 0.0 && w > 0.0
    ensures x / w > 0.0
  {
  }

  /** The delay of a sliding-counter denial is tight exactly under the condition on the counts. */
  lemma SlidingTightExactly(request: Request, hist: History, now: nat)
    requires request.Valid() && request.algorithm.SlidingWindowCounter? && Legal(request, hist) && UpTo(hist, now)
    requires !Decide(request, hist, now).allowed
    ensures Tight(request, hist, now) <==> SlidingTight(request, hist, now)
  {
    hide Legal, StateOf, WindowOf, Elapsed, Weighted, Apply;
    var window, limit, id := request.window, request.limit, WindowOf(now, request.window);
    var current, previous := AlignedCount(hist, window, id), AlignedCount(hist, window, id - 1);
    WindowSplit(now, window);
    SlidingCounterLimit(request, hist, id);
    if current == limit {
      SlidingFullTight(request, hist, now);
    } else if Elapsed(now, window) > window - MILLISECOND {
      SlidingDelayIs(request, hist, now);
    } else {
      SlidingOpenExactly(request, hist, now);
      if current == limit - 1 {
        SlidingCounterExact(request, hist, now);
        NearlyFull(current, previous, window, Elapsed(now, window), limit);
      }
    }
  }

  /** All five algorithms: the delay of a denial is tight, for the sliding counter exactly under its condition. */
  lemma RetryTightExactly(request: Request, hist: History, now: nat)
    requires request.Valid() && Legal(request, hist) && UpTo(hist, now)
    requires !Decide(request, hist, now).allowed
    ensures Tight(request, hist, now) <==>
            !request.algorithm.SlidingWindowCounter? || SlidingTight(request, hist, now)
  {
    hide Legal, StateOf, Tight, SlidingTight, Apply;
    match request.algorithm
    case TokenBucket => BucketTight(request, hist, now);
    case FixedWindow => FixedTight(request, hist, now);
    case SlidingWindowCounter => SlidingTightExactly(request, hist, now);
    case SlidingWindowLog => LogTight(request, hist, now);
    case LeakyBucket => BucketTight(request, hist, now);
  }

  const LOOSE_REQUEST :=
    Request("k", SlidingWindowCounter, 0.0, 0, 2, 10 * MILLISECOND, 0.0, 0)

  /** The sliding counter may advise waiting far longer than needed: here 10 ms when 5 ms would do. */
  lemma SlidingRetryIsLoose()
    ensures LOOSE_REQUEST.Valid()
    ensures var hist, now := [0, 0], 10 * MILLISECOND;
            && Legal(LOOSE_REQUEST, hist) && UpTo(hist, now)
            && !Decide(LOOSE_REQUEST, hist, now).allowed
            && Decide(LOOSE_REQUEST, hist, now).retry == 10 * MILLISECOND
            && Decide(LOOSE_REQUEST, hist, now + 5 * MILLISECOND).allowed
  {
    var r := LOOSE_REQUEST;
    var hist: History := [0, 0];
    assert Front(hist) == [0] && Front([0]) == [];
    assert Legal(r, [0]);
    assert StateOf(r, [0]).currentCount == 1 && StateOf(r, [0]).windowID == 0;
    assert Legal(r, hist);
    assert StateOf(r, hist).currentCount == 2 && StateOf(r, hist).windowID == 0;
    assert RolledCounts(1, StateOf(r, hist)) == (0, 2);
  }
}
