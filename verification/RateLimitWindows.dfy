/**
 Fixed window, sliding-window counter and sliding-window log: the stored counters and events
 agree with the admission history, and the promised limits hold over every run.
 */
module RateLimitWindows {
  import opened RateLimitRequest
  import opened RateLimitApply
  import opened RateLimitHistory

  /** How many admissions fall in the aligned window number `id`. */
  function AlignedCount(hist: History, window: int, id: int): nat
    requires window > 0
  {
    if hist == [] then 0
    else AlignedCount(Front(hist), window, id) + if WindowOf(Last(hist), window) == id then 1 else 0
  }

  /** Window number `id` is the interval [id * window, (id + 1) * window). */
  lemma WindowBounds(now: nat, window: int, id: int)
    requires window > 0
    ensures id * window <= now < id * window + window <==> WindowOf(now, window) == id
  {
    var q := WindowOf(now, window);
    WindowHolds(now, window);
    hide WindowOf;
    if q < id {
      MultipleMonotone(q + 1, id, window);
      assert (q + 1) * window == q * window + window;
    } else if q > id {
      MultipleMonotone(id + 1, q, window);
      assert (id + 1) * window == id * window + window;
    }
  }

  lemma WindowHolds(now: nat, window: int)
    requires window > 0
    ensures WindowOf(now, window) * window <= now < WindowOf(now, window) * window + window
  {
  }

  lemma WindowMonotone(a: nat, b: nat, window: int)
    requires window > 0 && a <= b
    ensures WindowOf(a, window) <= WindowOf(b, window)
  {
    WindowBounds(a, window, WindowOf(a, window));
    var q := WindowOf(b, window);
    WindowBounds(b, window, q);
    if q < WindowOf(a, window) {
      MultipleMonotone(q + 1, WindowOf(a, window), window);
    }
  }

  lemma MultipleMonotone(p: int, q: int, window: int)
    requires window > 0 && p <= q
    ensures p * window <= q * window
  {
  }

  lemma {:induction false} AlignedCountIsInterval(hist: History, window: int, id: int)
    requires window > 0
    ensures AlignedCount(hist, window, id) == CountIn(hist, id * window, id * window + window)
  {
    if hist == [] {
    } else {
      AlignedCountIsInterval(Front(hist), window, id);
      WindowBounds(Last(hist), window, id);
    }
  }

  lemma {:induction false} AlignedCountBeyond(request: Request, hist: History, id: int)
    requires request.Valid() && Legal(request, hist) && request.window > 0
    requires hist != [] ==> WindowOf(Last(hist), request.window) < id
    ensures AlignedCount(hist, request.window, id) == 0
  {
    if hist != [] && Front(hist) != [] {
      WindowMonotone(Last(Front(hist)), Last(hist), request.window);
      AlignedCountBeyond(request, Front(hist), id);
    }
  }

  // ---------- fixed window ----------

  lemma {:induction false} FixedShape(request: Request, hist: History)
    requires request.Valid() && request.algorithm.FixedWindow? && Legal(request, hist) && hist != []
    ensures var s, id := StateOf(request, hist), WindowOf(Last(hist), request.window);
            && s == ZERO_STATE.(windowID := id, currentCount := s.currentCount, expiresAt := s.expiresAt)
            && s.currentCount == AlignedCount(hist, request.window, id) <= request.limit
  {
    var front := Front(hist);
    if front == [] {
    } else {
      FixedShape(request, front);
    }
    if front != [] && WindowOf(Last(front), request.window) != WindowOf(Last(hist), request.window) {
      WindowMonotone(Last(front), Last(hist), request.window);
      AlignedCountBeyond(request, front, WindowOf(Last(hist), request.window));
    }
  }

  lemma {:induction false} FixedWindowLimit(request: Request, hist: History, id: int)
    requires request.Valid() && request.algorithm.FixedWindow? && Legal(request, hist)
    ensures AlignedCount(hist, request.window, id) <= request.limit
  {
    if hist == [] {
    } else {
      FixedShape(request, hist);
      FixedWindowLimit(request, Front(hist), id);
    }
  }

  /** A fixed window admits a request if and only if its aligned window is not full. */
  lemma FixedWindowExact(request: Request, hist: History, now: nat)
    requires request.Valid() && request.algorithm.FixedWindow? && Legal(request, hist) && UpTo(hist, now)
    ensures Decide(request, hist, now).allowed <==>
            AlignedCount(hist, request.window, WindowOf(now, request.window)) < request.limit
  {
    if hist != [] {
      FixedShape(request, hist);
      if WindowOf(Last(hist), request.window) != WindowOf(now, request.window) {
        WindowMonotone(Last(hist), now, request.window);
        AlignedCountBeyond(request, hist, WindowOf(now, request.window));
      }
    }
  }

  // ---------- sliding-window counter ----------

  lemma WeightedRange(current: int, previous: int, window: int, elapsed: int)
    requires 0 <= previous && 0 <= elapsed <= window && window > 0
    ensures current as real <= Weighted(current, previous, window, elapsed) <= (current + previous) as real
  {
    var p, w, r := previous as real, window as real, (window - elapsed) as real;
    ScaleRange(p, r, w);
    assert Weighted(current, previous, window, elapsed) == current as real + p * r / w;
  }

  lemma ScaleRange(p: real, r: real, w: real)
    requires 0.0 <= p && 0.0 <= r <= w && w > 0.0
    ensures 0.0 <= p * r / w <= p
  {
    assert 0.0 <= p * r <= p * w;
  }

  lemma ScaleMonotone(p: real, r: real, r': real, w: real)
    requires 0.0 <= p && r <= r' && w > 0.0
    ensures p * r / w <= p * r' / w
  {
    assert p * r <= p * r';
  }

  lemma WeightedMonotone(current: int, previous: int, window: int, elapsed: int, later: int)
    requires 0 <= previous && 0 <= elapsed <= later <= window && window > 0
    ensures Weighted(current, previous, window, later) <= Weighted(current, previous, window, elapsed)
  {
    ScaleMonotone(previous as real, (window - later) as real, (window - elapsed) as real, window as real);
  }

  lemma {:induction false} SlidingShape(request: Request, hist: History)
    requires request.Valid() && request.algorithm.SlidingWindowCounter? && Legal(request, hist) && hist != []
    ensures var s, id := StateOf(request, hist), WindowOf(Last(hist), request.window);
            && s == ZERO_STATE.(windowID := id, currentCount := s.currentCount, previous := s.previous,
                                expiresAt := s.expiresAt)
            && s.currentCount == AlignedCount(hist, request.window, id) <= request.limit
            && s.previous == AlignedCount(hist, request.window, id - 1)
    decreases |hist|, 0
  {
    hide WindowOf, Weighted;
    var front, id := Front(hist), WindowOf(Last(hist), request.window);
    if front == [] {
    } else {
      SlidingShape(request, front);
    }
    SlidingRollOver(request, front, Last(hist));
    var (current, previous) := RolledCounts(id, StateOf(request, front));
    WeightedRange(current, previous, request.window, Elapsed(Last(hist), request.window));
  }

  /** After roll-over the counters of any reachable state are the true counts of the two windows. */
  lemma {:induction false} SlidingRollOver(request: Request, hist: History, now: nat)
    requires request.Valid() && request.algorithm.SlidingWindowCounter? && Legal(request, hist) && UpTo(hist, now)
    ensures var id := WindowOf(now, request.window);
            RolledCounts(id, StateOf(request, hist))
              == (AlignedCount(hist, request.window, id), AlignedCount(hist, request.window, id - 1))
    decreases |hist|, 1
  {
    hide WindowOf, Weighted;
    if hist == [] {
    } else {
      SlidingShape(request, hist);
      var id, last := WindowOf(now, request.window), WindowOf(Last(hist), request.window);
      WindowMonotone(Last(hist), now, request.window);
      if last < id { AlignedCountBeyond(request, hist, id); }
      if last < id - 1 { AlignedCountBeyond(request, hist, id - 1); }
    }
  }

  lemma {:induction false} SlidingCounterLimit(request: Request, hist: History, id: int)
    requires request.Valid() && request.algorithm.SlidingWindowCounter? && Legal(request, hist)
    ensures AlignedCount(hist, request.window, id) <= request.limit
  {
    if hist == [] {
    } else {
      SlidingShape(request, hist);
      SlidingCounterLimit(request, Front(hist), id);
    }
  }

  /** The weighted estimate that decides a request is built from the true counts. */
  lemma SlidingCounterExact(request: Request, hist: History, now: nat)
    requires request.Valid() && request.algorithm.SlidingWindowCounter? && Legal(request, hist) && UpTo(hist, now)
    ensures var window, id := request.window, WindowOf(now, request.window);
            Decide(request, hist, now).allowed <==>
            Weighted(AlignedCount(hist, window, id), AlignedCount(hist, window, id - 1), window, Elapsed(now, window)) + 1.0
              <= request.limit as real
  {
    SlidingRollOver(request, hist, now);
  }

  /** The same in whole numbers, counted on the history: the previous window weighs what the elapsed time leaves of it. */
  lemma SlidingCounterInNumbers(request: Request, hist: History, now: nat)
    requires request.Valid() && request.algorithm.SlidingWindowCounter? && Legal(request, hist) && UpTo(hist, now)
    ensures var w := request.window;
            var start := now / w * w;
            Decide(request, hist, now).allowed <==>
            CountIn(hist, start, start + w) * w + CountIn(hist, start - w, start) * (w - now % w) + w <= request.limit * w
  {
    assert request.window > 0;
    hide Decide, CountIn, AlignedCount, Weighted, Request.Validate, Legal, UpTo;
    var w, id := request.window, now / request.window;
    SlidingCounterExact(request, hist, now);
    assert WindowOf(now, w) == id && Elapsed(now, w) == now % w;
    hide WindowOf, Elapsed;
    TwoIntervals(hist, w, id);
    WeightedInNumbers(AlignedCount(hist, w, id), AlignedCount(hist, w, id - 1), w, now % w, request.limit);
  }

  /** The aligned counts of a window and of the one before it, as intervals. */
  lemma TwoIntervals(hist: History, w: int, id: int)
    requires w > 0
    ensures AlignedCount(hist, w, id) == CountIn(hist, id * w, id * w + w)
    ensures AlignedCount(hist, w, id - 1) == CountIn(hist, id * w - w, id * w)
  {
    AlignedCountIsInterval(hist, w, id);
    AlignedCountIsInterval(hist, w, id - 1);
    hide CountIn, AlignedCount;
    assert (id - 1) * w == id * w - w;
  }

  lemma WeightedInNumbers(current: int, previous: int, w: int, elapsed: int, limit: int)
    requires w > 0
    ensures Weighted(current, previous, w, elapsed) + 1.0 <= limit as real <==>
            current * w + previous * (w - elapsed) + w <= limit * w
  {
    WeightedScaled(current, previous, w, elapsed);
    hide Weighted;
    Scaled(Weighted(current, previous, w, elapsed), limit, w, current * w + previous * (w - elapsed));
  }

  /** The estimate times the window is a whole number. */
  lemma WeightedScaled(current: int, previous: int, w: int, elapsed: int)
    requires w > 0
    ensures Weighted(current, previous, w, elapsed) * w as real == (current * w + previous * (w - elapsed)) as real
  {
    var c, p, left, window := current as real, previous as real, (w - elapsed) as real, w as real;
    Quotient(c, p * left, window);
  }

  lemma Quotient(c: real, x: real, w: real)
    requires w > 0.0
    ensures (c + x / w) * w == c * w + x
  {
  }

  lemma Scaled(estimate: real, limit: int, w: int, total: int)
    requires w > 0 && estimate * w as real == total as real
    ensures estimate + 1.0 <= limit as real <==> total + w <= limit * w
  {
    var room := limit as real - (estimate + 1.0);
    RoomScaled(estimate, limit as real, w as real, total as real);
    WholeProduct(limit, w);
    SignKept(room, w as real);
  }

  lemma RoomScaled(estimate: real, limit: real, w: real, total: real)
    requires estimate * w == total
    ensures (limit - (estimate + 1.0)) * w == limit * w - total - w
  {
  }

  lemma WholeProduct(limit: int, w: int)
    ensures limit as real * w as real == (limit * w) as real
  {
  }

  lemma SignKept(x: real, w: real)
    requires w > 0.0
    ensures x >= 0.0 <==> x * w >= 0.0
  {
  }

  // ---------- unaligned intervals ----------

  /** An interval of one window's length ending at `to` lies in the aligned window of `to` and its predecessor. */
  lemma {:induction false} IntervalInTwoWindows(hist: History, window: int, to: nat)
    requires window > 0
    requires forall i :: 0 <= i < |hist| ==> hist[i] <= to
    ensures var id := WindowOf(to, window);
            CountIn(hist, to - window + 1, to + 1) <= AlignedCount(hist, window, id) + AlignedCount(hist, window, id - 1)
  {
    if hist == [] {
    } else {
      IntervalInTwoWindows(Front(hist), window, to);
      var id := WindowOf(to, window);
      WindowBounds(to, window, id);
      if to - window + 1 <= Last(hist) {
        assert (id - 1) * window == id * window - window;
        WindowBounds(Last(hist), window, id);
        WindowBounds(Last(hist), window, id - 1);
      }
    }
  }

  /** Whatever an interval ending at `to` holds, the one ending at the last admission up to `to` holds as well. */
  lemma {:induction false} EndAtAdmission(request: Request, hist: History, to: int, bound: int)
    requires request.Valid() && Legal(request, hist) && bound >= 0
    requires forall n :: 0 < n <= |hist| ==>
               CountIn(hist[..n], hist[n - 1] - request.window + 1, hist[n - 1] + 1) <= bound
    ensures CountIn(hist, to - request.window + 1, to + 1) <= bound
  {
    if hist == [] {
    } else if Last(hist) > to {
      var front := Front(hist);
      forall n | 0 < n <= |front| ensures CountIn(front[..n], front[n - 1] - request.window + 1, front[n - 1] + 1) <= bound {
        assert front[..n] == hist[..n];
      }
      EndAtAdmission(request, front, to, bound);
    } else {
      var n := |hist|;
      assert hist[..n] == hist;
      LegalIsSorted(request, hist);
      CountNarrow(hist, to - request.window + 1, to + 1, hist[n - 1] - request.window + 1, hist[n - 1] + 1);
    }
  }

  lemma {:induction false} LegalPrefix(request: Request, hist: History, n: nat)
    requires request.Valid() && Legal(request, hist) && n <= |hist|
    ensures Legal(request, hist[..n])
  {
    if n < |hist| {
      LegalPrefix(request, Front(hist), n);
      assert Front(hist)[..n] == hist[..n];
    } else {
      assert hist[..n] == hist;
    }
  }

  /** A fixed window lets at most twice the limit into an unaligned interval of one window's length. */
  lemma FixedIntervalLimit(request: Request, hist: History, to: int)
    requires request.Valid() && request.algorithm.FixedWindow? && Legal(request, hist)
    ensures CountIn(hist, to - request.window + 1, to + 1) <= 2 * request.limit
  {
    hide WindowOf, StateOf, Decide;
    forall n | 0 < n <= |hist|
      ensures CountIn(hist[..n], hist[n - 1] - request.window + 1, hist[n - 1] + 1) <= 2 * request.limit
    {
      var prefix, last := hist[..n], hist[n - 1];
      LegalPrefix(request, hist, n);
      LegalIsSorted(request, prefix);
      IntervalInTwoWindows(prefix, request.window, last);
      FixedWindowLimit(request, prefix, WindowOf(last, request.window));
      FixedWindowLimit(request, prefix, WindowOf(last, request.window) - 1);
    }
    EndAtAdmission(request, hist, to, 2 * request.limit);
  }

  /** The part of the previous window's count that the weight leaves out. */
  function LeftOut(previous: int, window: int, elapsed: int): real
    requires window > 0
  {
    previous as real * elapsed as real / window as real
  }

  /**
   What the weighting is for: at an admission the interval of one window's length that ends there holds at
   most the limit, and beyond it no more than the part of the previous count that the weight leaves out.
   */
  lemma SlidingCounterAtAdmission(request: Request, hist: History)
    requires request.Valid() && request.algorithm.SlidingWindowCounter? && Legal(request, hist) && hist != []
    ensures var window, now := request.window, Last(hist);
            var previous := AlignedCount(hist, window, WindowOf(now, window) - 1);
            CountIn(hist, now - window + 1, now + 1) as real
              <= request.limit as real + LeftOut(previous, window, Elapsed(now, window))
  {
    hide WindowOf, Elapsed, StateOf, Decide, Weighted, LeftOut;
    var window, now, front := request.window, Last(hist), Front(hist);
    var id := WindowOf(now, window);
    LegalIsSorted(request, hist);
    IntervalInTwoWindows(hist, window, now);
    SlidingCounterExact(request, front, now);
    assert AlignedCount(hist, window, id) == AlignedCount(front, window, id) + 1;
    assert AlignedCount(hist, window, id - 1) == AlignedCount(front, window, id - 1);
    WeightLeftOut(AlignedCount(front, window, id), AlignedCount(front, window, id - 1), window, Elapsed(now, window));
  }

  /** The weight leaves out of the previous count what the elapsed part of the window stands for. */
  lemma WeightLeftOut(current: int, previous: int, window: int, elapsed: int)
    requires window > 0
    ensures Weighted(current, previous, window, elapsed)
              == (current + previous) as real - LeftOut(previous, window, elapsed)
  {
    var p, w, e := previous as real, window as real, elapsed as real;
    assert (window - elapsed) as real == w - e;
    SplitQuotient(p, e, w);
  }

  lemma SplitQuotient(p: real, e: real, w: real)
    requires w > 0.0
    ensures p * (w - e) / w == p - p * e / w
  {
    var q := p * e / w;
    assert q * w == p * e;
    assert p * (w - e) == p * w - q * w == (p - q) * w;
  }

  /** The sliding counter admits fewer than twice the limit in any interval of one window's length. */
  lemma SlidingIntervalLimit(request: Request, hist: History, to: int)
    requires request.Valid() && request.algorithm.SlidingWindowCounter? && Legal(request, hist)
    ensures CountIn(hist, to - request.window + 1, to + 1) < 2 * request.limit
  {
    hide WindowOf, Elapsed, StateOf, Decide;
    forall n | 0 < n <= |hist|
      ensures CountIn(hist[..n], hist[n - 1] - request.window + 1, hist[n - 1] + 1) <= 2 * request.limit - 1
    {
      LegalPrefix(request, hist, n);
      SlidingLessThanTwice(request, hist[..n]);
    }
    EndAtAdmission(request, hist, to, 2 * request.limit - 1);
  }

  lemma SlidingLessThanTwice(request: Request, hist: History)
    requires request.Valid() && request.algorithm.SlidingWindowCounter? && Legal(request, hist) && hist != []
    ensures CountIn(hist, Last(hist) - request.window + 1, Last(hist) + 1) < 2 * request.limit
  {
    hide WindowOf, Elapsed, StateOf, Legal, LeftOut;
    var window, now := request.window, Last(hist);
    var previous := AlignedCount(hist, window, WindowOf(now, window) - 1);
    SlidingCounterAtAdmission(request, hist);
    SlidingCounterLimit(request, hist, WindowOf(now, window) - 1);
    LeftOutIsPart(previous, request.limit, window, now);
  }

  lemma LeftOutIsPart(previous: int, limit: int, window: int, now: nat)
    requires window > 0 && 0 <= previous <= limit && limit > 0
    ensures LeftOut(previous, window, Elapsed(now, window)) < limit as real
  {
    if previous > 0 {
      PartOf(previous as real, Elapsed(now, window) as real, window as real);
    }
  }

  lemma PartOf(p: real, e: real, w: real)
    requires p > 0.0 && 0.0 <= e < w
    ensures p * e / w < p
  {
    assert p * e < p * w;
  }

  // ---------- sliding-window log ----------

  lemma {:induction false} PruneTwice(events: seq<int>, earlier: int, cutoff: int)
    requires earlier <= cutoff
    ensures Prune(Prune(events, earlier), cutoff) == Prune(events, cutoff)
  {
    if events != [] && events[0] <= earlier { PruneTwice(events[1..], earlier, cutoff); }
  }

  lemma {:induction false} PruneAppend(events: seq<int>, event: int, cutoff: int)
    requires event > cutoff
    ensures Prune(events + [event], cutoff) == Prune(events, cutoff) + [event]
  {
    if events != [] && events[0] <= cutoff {
      assert (events + [event])[1..] == events[1..] + [event];
      PruneAppend(events[1..], event, cutoff);
    }
  }

  lemma {:induction false} PruneAll(events: seq<int>, cutoff: int)
    requires forall i :: 0 <= i < |events| ==> events[i] <= cutoff
    ensures Prune(events, cutoff) == []
  {
    if events == [] {
    } else {
      PruneAll(events[1..], cutoff);
    }
  }

  /** The stored events are the history cut off one window before the newest admission. */
  lemma {:induction false} LogShape(request: Request, hist: History)
    requires request.Valid() && request.algorithm.SlidingWindowLog? && Legal(request, hist) && hist != []
    ensures var s := StateOf(request, hist);
            && s == ZERO_STATE.(events := s.events, expiresAt := s.expiresAt)
            && s.events == Prune(hist, Last(hist) - request.window)
            && |s.events| <= request.limit
  {
    var front, last := Front(hist), Last(hist);
    if front == [] {
    } else {
      LogShape(request, front);
      PruneTwice(front, Last(front) - request.window, last - request.window);
    }
    PruneAppend(front, last, last - request.window);
    assert front + [last] == hist;
  }

  /** Pruning at decision time leaves exactly the history's admissions after the cutoff. */
  lemma LogPruned(request: Request, hist: History, now: nat)
    requires request.Valid() && request.algorithm.SlidingWindowLog? && Legal(request, hist) && UpTo(hist, now)
    ensures Prune(StateOf(request, hist).events, now - request.window) == Prune(hist, now - request.window)
  {
    if hist != [] {
      LogShape(request, hist);
      PruneTwice(hist, Last(hist) - request.window, now - request.window);
    }
  }

  lemma {:induction false} PruneCounts(request: Request, hist: History, cutoff: int, hi: int)
    requires request.Valid() && Legal(request, hist)
    requires hist != [] ==> Last(hist) < hi
    ensures |Prune(hist, cutoff)| == CountIn(hist, cutoff + 1, hi)
  {
    if hist == [] {
    } else {
      LegalIsSorted(request, hist);
      if Last(hist) > cutoff {
        PruneCounts(request, Front(hist), cutoff, hi);
        PruneAppend(Front(hist), Last(hist), cutoff);
        assert Front(hist) + [Last(hist)] == hist;
      } else {
        PruneAll(hist, cutoff);
        CountNothing(hist, cutoff + 1, hi);
      }
    }
  }

  /** The log admits if and only if fewer than `limit` admissions of the whole history lie in (now - window, now]. */
  lemma SlidingLogExact(request: Request, hist: History, now: nat)
    requires request.Valid() && request.algorithm.SlidingWindowLog? && Legal(request, hist) && UpTo(hist, now)
    ensures Decide(request, hist, now).allowed <==>
            CountIn(hist, now - request.window + 1, now + 1) < request.limit
  {
    LogPruned(request, hist, now);
    PruneCounts(request, hist, now - request.window, now + 1);
  }

  lemma {:induction false} CountNarrow(hist: History, lo: int, hi: int, lo': int, hi': int)
    requires forall i :: 0 <= i < |hist| ==> lo <= hist[i] < hi ==> lo' <= hist[i] < hi'
    ensures CountIn(hist, lo, hi) <= CountIn(hist, lo', hi')
  {
    if hist == [] {
    } else {
      CountNarrow(Front(hist), lo, hi, lo', hi');
    }
  }

  /** No interval (to - window, to] of any run holds more than `limit` admissions. */
  lemma {:induction false} SlidingLogLimit(request: Request, hist: History, to: int)
    requires request.Valid() && request.algorithm.SlidingWindowLog? && Legal(request, hist)
    ensures CountIn(hist, to - request.window + 1, to + 1) <= request.limit
  {
    if hist == [] {
    } else if Last(hist) > to {
      SlidingLogLimit(request, Front(hist), to);
    } else {
      var last := Last(hist);
      LegalIsSorted(request, hist);
      SlidingLogExact(request, Front(hist), last);
      CountNarrow(hist, to - request.window + 1, to + 1, last - request.window + 1, last + 1);
    }
  }
}
