/**
 Admission histories.  The reference limiter never forgets: it decides a request by replaying
 every admission of the request's key since the beginning of the run.
 */
module RateLimitHistory {
  import opened Wrappers
  import opened RateLimitRequest
  import opened RateLimitApply

  /** The times at which one key was admitted, oldest first. */
  type History = seq<nat>

  function Last(hist: History): nat
    requires hist != []
  {
    hist[|hist| - 1]
  }

  function Front(hist: History): History
    requires hist != []
  {
    hist[..|hist| - 1]
  }

  /** The stored form of the state after an admission at `now`. */
  function Stamped(request: Request, now: nat, next: State): State
    requires request.Valid()
  {
    next.(expiresAt := Some(now + StateTTL(request)))
  }

  /** The state reached by replaying the whole history, without any expiry. */
  function StateOf(request: Request, hist: History): State
    requires request.Valid()
    decreases |hist|, 0
  {
    if hist == [] then ZERO_STATE
    else Stamped(request, Last(hist), Decide(request, Front(hist), Last(hist)).next)
  }

  /** The reference limiter's decision. */
  function Decide(request: Request, hist: History, now: nat): Decision
    requires request.Valid()
    decreases |hist|, 1
  {
    Apply(now, request, StateOf(request, hist))
  }

  /** No recorded admission lies after `now`. */
  predicate UpTo(hist: History, now: nat) {
    hist != [] ==> Last(hist) <= now
  }

  /** A history the reference limiter can produce: in time order, and admitted step by step. */
  predicate Legal(request: Request, hist: History)
    requires request.Valid()
  {
    hist != [] ==>
      && Legal(request, Front(hist))
      && UpTo(Front(hist), Last(hist))
      && Decide(request, Front(hist), Last(hist)).allowed
  }

  /** How many admissions lie in the half-open interval [lo, hi). */
  function CountIn(hist: History, lo: int, hi: int): nat {
    if hist == [] then 0
    else CountIn(Front(hist), lo, hi) + if lo <= Last(hist) < hi then 1 else 0
  }

  lemma {:induction false} LegalIsSorted(request: Request, hist: History)
    requires request.Valid() && Legal(request, hist)
    ensures forall i, j :: 0 <= i <= j < |hist| ==> hist[i] <= hist[j]
  {
    if hist == [] {
    } else {
      LegalIsSorted(request, Front(hist));
      forall i, j | 0 <= i <= j < |hist| ensures hist[i] <= hist[j] {
        if j == |hist| - 1 && i < j {
          assert Front(hist)[i] <= Last(Front(hist));
        } else if j < |hist| - 1 {
          assert Front(hist)[i] <= Front(hist)[j];
        }
      }
    }
  }

  lemma {:induction false} CountSplit(hist: History, lo: int, mid: int, hi: int)
    requires lo <= mid <= hi
    ensures CountIn(hist, lo, hi) == CountIn(hist, lo, mid) + CountIn(hist, mid, hi)
  {
    if hist == [] {
    } else {
      CountSplit(Front(hist), lo, mid, hi);
    }
  }

  lemma {:induction false} CountNothing(hist: History, lo: int, hi: int)
    requires forall i :: 0 <= i < |hist| ==> !(lo <= hist[i] < hi)
    ensures CountIn(hist, lo, hi) == 0
  {
    if hist == [] {
    } else {
      CountNothing(Front(hist), lo, hi);
    }
  }

  /** Every admission of a legal history up to time `last` that ends an interval can be the newest one counted. */
  lemma {:induction false} CountAfterLast(hist: History, lo: int, mid: int, hi: int)
    requires forall i :: 0 <= i < |hist| ==> hist[i] < mid
    requires lo <= mid <= hi
    ensures CountIn(hist, lo, hi) == CountIn(hist, lo, mid)
  {
    CountSplit(hist, lo, mid, hi);
    CountNothing(hist, mid, hi);
  }
}
