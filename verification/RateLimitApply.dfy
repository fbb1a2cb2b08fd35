/**
 The five limiter algorithms of the in-process store (cache/memory/rate_limit.go):
 one decision on one key's state.  Times are nanoseconds since the Unix epoch.
 */
module RateLimitApply {
  import opened Wrappers
  import opened RateLimitRequest

  const SECOND: int := 1_000_000_000

  datatype State = State(
    windowID: int,
    currentCount: int,
    previous: int,
    events: seq<int>,
    tokens: real,
    water: real,
    updatedAt: Option<int>,
    expiresAt: Option<int>)

  const ZERO_STATE := State(0, 0, 0, [], 0.0, 0.0, None, None)

  datatype Decision = Decision(allowed: bool, retry: int, next: State)

  function Ceil(x: real): (n: int)
    ensures n as real - 1.0 < x <= n as real
  {
    -((-x).Floor)
  }

  function Min(x: real, y: real): real { if x <= y then x else y }

  function Max(x: real, y: real): real { if x >= y then x else y }

  function Seconds(duration: int): real {
    duration as real / SECOND as real
  }

  /** What a rate yields over a duration. */
  function Gain(duration: int, rate: real): real {
    Seconds(duration) * rate
  }

  /** `amount / rate` seconds, rounded up to whole milliseconds. */
  function MillisUp(amount: real, rate: real): int
    requires rate > 0.0
  {
    Ceil(amount / rate * 1000.0) * MILLISECOND
  }

  function AtLeastOneMilli(retry: int): int {
    if retry < MILLISECOND then MILLISECOND else retry
  }

  /** The number of the aligned window a time falls in. */
  function WindowOf(now: nat, window: int): int
    requires window > 0
  {
    now / window
  }

  /** How far into its aligned window a time lies. */
  function Elapsed(now: nat, window: int): int
    requires window > 0
  {
    now % window
  }

  function FixedWindowRetry(now: nat, window: int): int
    requires window > 0
  {
    AtLeastOneMilli(window - Elapsed(now, window))
  }

  /** Drops the leading events at or before the cutoff. */
  function Prune(events: seq<int>, cutoff: int): seq<int> {
    if events == [] || events[0] > cutoff then events else Prune(events[1..], cutoff)
  }

  function Refilled(now: nat, request: Request, state: State): real {
    match state.updatedAt
    case None => request.burst as real
    case Some(at) => Min(request.burst as real, state.tokens + Gain(now - at, request.tokensPerSecond))
  }

  function Leaked(now: nat, request: Request, state: State): real {
    match state.updatedAt
    case None => state.water
    case Some(at) => Max(0.0, state.water - Gain(now - at, request.leakRatePerSecond))
  }

  /** The counts of the current aligned window and its predecessor, after roll-over. */
  function RolledCounts(windowID: int, state: State): (int, int) {
    if state.windowID == windowID then (state.currentCount, state.previous)
    else if state.windowID == windowID - 1 then (0, state.currentCount)
    else (0, 0)
  }

  function Weighted(current: int, previous: int, window: int, elapsed: int): real
    requires window > 0
  {
    current as real + previous as real * (window - elapsed) as real / window as real
  }

  /** The wait beyond the window boundary when the current window itself is full. */
  function ExtraWait(current: int, limit: int, window: int): int {
    if current > 0 && current + 1 > limit then Ceil((current + 1 - limit) as real * window as real / current as real)
    else 0
  }

  function ApplyTokenBucket(now: nat, request: Request, state: State): Decision
    requires request.Valid() && request.algorithm.TokenBucket?
  {
    var tokens := Refilled(now, request, state);
    if tokens < 1.0 then
      Decision(false, AtLeastOneMilli(MillisUp(1.0 - tokens, request.tokensPerSecond)), state.(tokens := tokens))
    else
      Decision(true, 0, state.(tokens := tokens - 1.0, updatedAt := Some(now)))
  }

  function ApplyFixedWindow(now: nat, request: Request, state: State): Decision
    requires request.Valid() && request.algorithm.FixedWindow?
  {
    var windowID := WindowOf(now, request.window);
    var current := if state.windowID == windowID then state else ZERO_STATE.(windowID := windowID);
    if current.currentCount + 1 > request.limit then
      Decision(false, FixedWindowRetry(now, request.window), current)
    else
      Decision(true, 0, current.(currentCount := current.currentCount + 1))
  }

  function ApplySlidingCounter(now: nat, request: Request, state: State): Decision
    requires request.Valid() && request.algorithm.SlidingWindowCounter?
  {
    var windowID := WindowOf(now, request.window);
    var (current, previous) := RolledCounts(windowID, state);
    if Weighted(current, previous, request.window, Elapsed(now, request.window)) + 1.0 > request.limit as real then
      var retry := FixedWindowRetry(now, request.window) + ExtraWait(current, request.limit, request.window);
      Decision(false, AtLeastOneMilli(retry), state)
    else
      Decision(true, 0, state.(windowID := windowID, currentCount := current + 1, previous := previous))
  }

  function ApplySlidingLog(now: nat, request: Request, state: State): Decision
    requires request.Valid() && request.algorithm.SlidingWindowLog?
  {
    var events := Prune(state.events, now - request.window);
    if |events| >= request.limit then
      Decision(false, AtLeastOneMilli(events[0] + request.window - now), state.(events := events))
    else
      Decision(true, 0, state.(events := events + [now]))
  }

  function ApplyLeakyBucket(now: nat, request: Request, state: State): Decision
    requires request.Valid() && request.algorithm.LeakyBucket?
  {
    var water := Leaked(now, request, state);
    if water + 1.0 > request.capacity as real then
      Decision(false, AtLeastOneMilli(MillisUp(water + 1.0 - request.capacity as real, request.leakRatePerSecond)),
               state.(water := water))
    else
      Decision(true, 0, state.(water := water + 1.0, updatedAt := Some(now)))
  }

  /** One decision of the request's algorithm on its key's state. */
  function Apply(now: nat, request: Request, state: State): Decision
    requires request.Valid()
  {
    match request.algorithm
    case TokenBucket => ApplyTokenBucket(now, request, state)
    case FixedWindow => ApplyFixedWindow(now, request, state)
    case SlidingWindowCounter => ApplySlidingCounter(now, request, state)
    case SlidingWindowLog => ApplySlidingLog(now, request, state)
    case LeakyBucket => ApplyLeakyBucket(now, request, state)
  }

  /** How long a key's state is kept after an admission. */
  function StateTTL(request: Request): int
    requires request.Valid()
  {
    match request.algorithm
    case TokenBucket => MillisUp(request.burst as real, request.tokensPerSecond) + 1000 * MILLISECOND
    case FixedWindow => request.window * 2
    case SlidingWindowCounter => request.window * 2
    case SlidingWindowLog => request.window
    case LeakyBucket => MillisUp(request.capacity as real, request.leakRatePerSecond) + 1000 * MILLISECOND
  }
}
