/**
 One verdict of the Lua script is one decision of the Go limiter, on the same history: equal
 admissions, equal new states, and a delay that is Go's rounded up to whole milliseconds.
 */
module RateLimitVerdicts {
  import opened Wrappers
  import opened RateLimitRequest
  import opened RateLimitApply
  import opened RateLimitHistory
  import opened RateLimitBuckets
  import opened RateLimitWindows
  import opened RateLimitLaws
  import opened RateLimitRedis

  /** A delay in nanoseconds, rounded up to whole milliseconds. */
  function CeilMillis(duration: int): int {
    (duration + MILLISECOND - 1) / MILLISECOND
  }

  /** Where an algorithm uses its window, the window is a whole number of milliseconds. */
  predicate WholeMillis(r: Request) {
    r.algorithm.TokenBucket? || r.algorithm.LeakyBucket? || r.window % MILLISECOND == 0
  }

  /** The key expiry the script asks for, in milliseconds. */
  function KeyTTL(r: Request): int
    requires r.Valid()
  {
    match r.algorithm
    case TokenBucket => Ceil((r.burst as real / r.tokensPerSecond + 1.0) * 1000.0)
    case FixedWindow => Millis(r.window) * 2
    case SlidingWindowCounter => Millis(r.window) * 2
    case SlidingWindowLog => Millis(r.window)
    case LeakyBucket => Ceil(r.capacity as real / r.leakRatePerSecond * 1000.0) + 1000
  }

  /** The hash that represents a state last written at `at`. */
  function StoredHash(r: Request, state: State, at: nat): Hash {
    match r.algorithm
    case TokenBucket => NO_FIELDS.(tokens := Some(state.tokens), updatedAt := Some(at))
    case FixedWindow => NO_FIELDS.(windowID := Some(state.windowID), count := Some(state.currentCount))
    case SlidingWindowCounter =>
      NO_FIELDS.(windowID := Some(state.windowID), current := Some(state.currentCount), previous := Some(state.previous))
    case LeakyBucket => NO_FIELDS.(water := Some(state.water), updatedAt := Some(at))
    case _ => NO_FIELDS
  }

  /** What the first loop must stage for an admission that leads to `next`. */
  function StagedFor(r: Request, next: State, now: nat): Staged
    requires r.Valid()
  {
    match r.algorithm
    case TokenBucket => TokenStaged(next.tokens, now, KeyTTL(r))
    case FixedWindow => FixedStaged(next.windowID, next.currentCount, KeyTTL(r))
    case SlidingWindowCounter => SlidingStaged(next.windowID, next.currentCount, next.previous, KeyTTL(r))
    case SlidingWindowLog => LogStaged(now, KeyTTL(r))
    case LeakyBucket => LeakyStaged(next.water, now, KeyTTL(r))
  }

  /** The verdict on an admission or a denial, as the Go decision demands it. */
  ghost predicate Agrees(verdict: Verdict, r: Request, decision: Decision, now: nat)
    requires r.Valid()
  {
    && verdict.retry == CeilMillis(decision.retry)
    && (decision.allowed <==> verdict.retry <= 0)
    && (decision.allowed ==> verdict.staged == StagedFor(r, decision.next, now))
  }

  // ---------- milliseconds and nanoseconds ----------

  lemma GainMillis(elapsed: int, rate: real)
    ensures Gain(elapsed * MILLISECOND, rate) == elapsed as real * rate / 1000.0
  {
    assert Seconds(elapsed * MILLISECOND) == elapsed as real / 1000.0;
  }

  lemma WindowMillis(now: nat, window: int)
    requires window > 0
    ensures WindowOf(now * MILLISECOND, window * MILLISECOND) == now / window
    ensures Elapsed(now * MILLISECOND, window * MILLISECOND) == (now % window) * MILLISECOND
  {
    var id, nanos := now / window, now * MILLISECOND;
    assert now == id * window + now % window;
    assert nanos == id * (window * MILLISECOND) + (now % window) * MILLISECOND;
    WindowBounds(nanos, window * MILLISECOND, id);
    WindowSplit(nanos, window * MILLISECOND);
  }

  lemma WeightedSame(current: int, previous: int, window: int, elapsed: int)
    requires window > 0
    ensures Weighted(current, previous, window * MILLISECOND, elapsed * MILLISECOND)
         == WeightedMillis(current, previous, window, elapsed)
  {
    var x, m, w := previous as real * (window - elapsed) as real, MILLISECOND as real, window as real;
    assert previous as real * (window * MILLISECOND - elapsed * MILLISECOND) as real == x * m;
    CancelScale(x, w, m);
  }

  lemma CancelScale(x: real, w: real, m: real)
    requires w > 0.0 && m > 0.0
    ensures (x * m) / (w * m) == x / w
  {
    var q := x / w;
    assert x == q * w;
    assert x * m == q * (w * m);
  }

  lemma CeilScale(x: real)
    ensures CeilMillis(Ceil(x * MILLISECOND as real)) == Ceil(x)
  {
    var n, k := Ceil(x), Ceil(x * MILLISECOND as real);
    assert (n - 1) * MILLISECOND < k <= n * MILLISECOND;
  }

  lemma CeilMonotone(a: int, b: int)
    requires a <= b
    ensures CeilMillis(a) <= CeilMillis(b)
  {
  }

  lemma TTLMatches(r: Request)
    requires r.Valid() && WholeMillis(r)
    ensures KeyTTL(r) * MILLISECOND == StateTTL(r)
  {
    match r.algorithm
    case TokenBucket =>
      var x := r.burst as real / r.tokensPerSecond;
      assert (x + 1.0) * 1000.0 == x * 1000.0 + 1000.0;
      assert Ceil(x * 1000.0 + 1000.0) == Ceil(x * 1000.0) + 1000;
    case _ =>
  }

  // ---------- the five algorithms ----------

  predicate UpToMillis(hist: History, now: nat) {
    UpTo(hist, now * MILLISECOND)
  }

  function FieldsOf(r: Request, hist: History, at: nat): Hash
    requires r.Valid()
  {
    if hist == [] then NO_FIELDS else StoredHash(r, StateOf(r, hist), at)
  }

  lemma TokenLevel(r: Request, hist: History, now: nat, at: nat)
    requires r.Valid() && r.algorithm.TokenBucket? && Legal(r, hist) && UpToMillis(hist, now)
    requires hist != [] ==> Last(hist) == at * MILLISECOND
    ensures RefilledMillis(FieldsOf(r, hist, at), now, r) == Refilled(now * MILLISECOND, r, StateOf(r, hist))
  {
    if hist != [] {
      TokenShape(r, hist);
      GainMillis(now - at, r.tokensPerSecond);
      assert now * MILLISECOND - at * MILLISECOND == (now - at) * MILLISECOND;
      hide Gain, StateOf;
    }
  }

  lemma TokenVerdict(r: Request, hist: History, now: nat, at: nat)
    requires r.Valid() && r.algorithm.TokenBucket? && Legal(r, hist) && UpToMillis(hist, now)
    requires hist != [] ==> Last(hist) == at * MILLISECOND
    ensures Agrees(JudgeToken(FieldsOf(r, hist, at), now, r), r, Decide(r, hist, now * MILLISECOND), now)
  {
    TokenLevel(r, hist, now, at);
    hide StateOf, Refilled, RefilledMillis, FieldsOf, Legal;
  }

  lemma LeakyLevel(r: Request, hist: History, now: nat, at: nat)
    requires r.Valid() && r.algorithm.LeakyBucket? && Legal(r, hist) && UpToMillis(hist, now)
    requires hist != [] ==> Last(hist) == at * MILLISECOND
    ensures LeakedMillis(FieldsOf(r, hist, at), now, r) == Leaked(now * MILLISECOND, r, StateOf(r, hist))
  {
    if hist != [] {
      LeakyShape(r, hist);
      GainMillis(now - at, r.leakRatePerSecond);
      assert now * MILLISECOND - at * MILLISECOND == (now - at) * MILLISECOND;
      hide Gain, StateOf;
    }
  }

  lemma LeakyVerdict(r: Request, hist: History, now: nat, at: nat)
    requires r.Valid() && r.algorithm.LeakyBucket? && Legal(r, hist) && UpToMillis(hist, now)
    requires hist != [] ==> Last(hist) == at * MILLISECOND
    ensures Agrees(JudgeLeaky(FieldsOf(r, hist, at), now, r), r, Decide(r, hist, now * MILLISECOND), now)
  {
    LeakyLevel(r, hist, now, at);
    hide StateOf, Leaked, LeakedMillis, FieldsOf, Legal;
  }

  lemma FixedVerdict(r: Request, hist: History, now: nat, at: nat)
    requires r.Valid() && r.algorithm.FixedWindow? && WholeMillis(r) && Legal(r, hist) && UpToMillis(hist, now)
    ensures Agrees(JudgeFixed(FieldsOf(r, hist, at), now, r), r, Decide(r, hist, now * MILLISECOND), now)
  {
    WindowMillis(now, Millis(r.window));
    WindowSplit(now, Millis(r.window));
    if hist != [] { FixedShape(r, hist); }
    hide WindowOf, Elapsed, AlignedCount;
  }

  lemma SlidingVerdict(r: Request, hist: History, now: nat, at: nat)
    requires r.Valid() && r.algorithm.SlidingWindowCounter? && WholeMillis(r) && Legal(r, hist) && UpToMillis(hist, now)
    ensures Agrees(JudgeSliding(FieldsOf(r, hist, at), now, r), r, Decide(r, hist, now * MILLISECOND), now)
  {
    if hist != [] { SlidingShape(r, hist); }
    var state := StateOf(r, hist);
    assert RolledFields(FieldsOf(r, hist, at), now / Millis(r.window)) == RolledCounts(now / Millis(r.window), state);
    SlidingStep(r, state, FieldsOf(r, hist, at), now);
  }

  lemma SlidingStep(r: Request, state: State, fields: Hash, now: nat)
    requires r.Valid() && r.algorithm.SlidingWindowCounter? && WholeMillis(r)
    requires RolledFields(fields, now / Millis(r.window)) == RolledCounts(now / Millis(r.window), state)
    ensures Agrees(JudgeSliding(fields, now, r), r, Apply(now * MILLISECOND, r, state), now)
  {
    var window := Millis(r.window);
    var id, elapsed := now / window, now % window;
    var (current, previous) := RolledCounts(id, state);
    WindowMillis(now, window);
    WeightedSame(current, previous, window, elapsed);
    var toBoundary := (window - elapsed) * MILLISECOND;
    assert r.window == window * MILLISECOND;
    assert FixedWindowRetry(now * MILLISECOND, r.window) == toBoundary;
    ExtraSame(current, r.limit, window);
    ExtraNonNegative(current, r.limit, r.window);
    ExtraNonNegative(current, r.limit, window);
    hide WindowOf, Elapsed, Weighted, WeightedMillis, RolledCounts, RolledFields, ExtraWait, FixedWindowRetry, Request.Validate;
    CeilAdd(window - elapsed, ExtraWait(current, r.limit, r.window));
  }

  lemma CeilAdd(millis: int, duration: int)
    ensures CeilMillis(millis * MILLISECOND + duration) == millis + CeilMillis(duration)
  {
  }

  lemma ExtraSame(current: int, limit: int, window: int)
    requires window > 0
    ensures CeilMillis(ExtraWait(current, limit, window * MILLISECOND)) == ExtraWait(current, limit, window)
  {
    if current > 0 && current + 1 > limit {
      var a, c := (current + 1 - limit) as real * window as real, current as real;
      CeilScale(a / c);
      assert (window * MILLISECOND) as real == window as real * MILLISECOND as real;
      assert (current + 1 - limit) as real * (window * MILLISECOND) as real == a * MILLISECOND as real;
      assert a * MILLISECOND as real / c == a / c * MILLISECOND as real;
    }
  }
}
