/**
 Token bucket and leaky bucket: what their states mean, the admission bound of every
 interval, and the proof that the two algorithms are one machine.
 */
module RateLimitBuckets {
  import opened Wrappers
  import opened RateLimitRequest
  import opened RateLimitApply
  import opened RateLimitHistory

  /** Waiting the rounded-up time really produces the requested amount. */
  lemma MillisUpSuffices(amount: real, rate: real, waited: int)
    requires rate > 0.0 && waited >= MillisUp(amount, rate)
    ensures Gain(waited, rate) >= amount
  {
    var millis := Ceil(amount / rate * 1000.0);
    assert Seconds(waited) >= Seconds(millis * MILLISECOND) == millis as real / 1000.0 >= amount / rate;
    assert Gain(waited, rate) >= amount / rate * rate == amount;
  }

  lemma SecondsScale(a: int, b: int, rate: real)
    requires 0 <= a <= b && rate > 0.0
    ensures 0.0 <= Gain(a, rate) <= Gain(b, rate)
    ensures Gain(b, rate) - Gain(a, rate) == Gain(b - a, rate)
  {
    assert Seconds(b) - Seconds(a) == Seconds(b - a) >= 0.0;
    assert Seconds(a) >= 0.0;
  }

  /** After an admission a token bucket holds between 0 and burst-1 tokens, and nothing else. */
  lemma {:induction false} TokenShape(request: Request, hist: History)
    requires request.Valid() && request.algorithm.TokenBucket? && Legal(request, hist) && hist != []
    ensures var s := StateOf(request, hist);
            && s == ZERO_STATE.(tokens := s.tokens, updatedAt := Some(Last(hist)), expiresAt := s.expiresAt)
            && 0.0 <= s.tokens <= request.burst as real - 1.0
  {
    if Front(hist) == [] {
    } else {
      TokenShape(request, Front(hist));
    }
  }

  lemma {:induction false} LeakyShape(request: Request, hist: History)
    requires request.Valid() && request.algorithm.LeakyBucket? && Legal(request, hist) && hist != []
    ensures var s := StateOf(request, hist);
            && s == ZERO_STATE.(water := s.water, updatedAt := Some(Last(hist)), expiresAt := s.expiresAt)
            && 1.0 <= s.water <= request.capacity as real
  {
    if Front(hist) == [] {
    } else {
      LeakyShape(request, Front(hist));
    }
  }

  /** The two requests describe buckets of equal size and equal rate. */
  predicate Dual(token: Request, leaky: Request) {
    && token.Valid() && token.algorithm.TokenBucket?
    && leaky.Valid() && leaky.algorithm.LeakyBucket?
    && token.burst == leaky.capacity
    && token.tokensPerSecond == leaky.leakRatePerSecond
  }

  /** Water is what is missing from a full bucket, whatever time has passed. */
  lemma DualLevels(token: Request, leaky: Request, now: nat, t: State, l: State)
    requires Dual(token, leaky) && t.updatedAt == l.updatedAt
    requires t.updatedAt.None? ==> l.water == 0.0
    requires t.updatedAt.Some? ==> l.water == token.burst as real - t.tokens
    ensures Leaked(now, leaky, l) == token.burst as real - Refilled(now, token, t)
  {
  }

  /** The bisimulation step: related buckets decide alike and stay related. */
  lemma DualStep(token: Request, leaky: Request, now: nat, t: State, l: State)
    requires Dual(token, leaky) && t.updatedAt == l.updatedAt
    requires t.updatedAt.None? ==> l.water == 0.0
    requires t.updatedAt.Some? ==> l.water == token.burst as real - t.tokens
    ensures var dt, dl := Apply(now, token, t), Apply(now, leaky, l);
            && dt.allowed == dl.allowed && dt.retry == dl.retry
            && dl.next.water == token.burst as real - dt.next.tokens
            && dl.next.updatedAt == dt.next.updatedAt
    ensures StateTTL(token) == StateTTL(leaky)
  {
    DualLevels(token, leaky, now, t, l);
    var tokens, water := Refilled(now, token, t), Leaked(now, leaky, l);
    assert 1.0 - tokens == water + 1.0 - leaky.capacity as real;
  }

  /** On every admission sequence the two buckets are the same machine. */
  lemma {:induction false} TokenAndLeakyAgree(token: Request, leaky: Request, hist: History)
    requires Dual(token, leaky)
    ensures Legal(token, hist) <==> Legal(leaky, hist)
    ensures Legal(token, hist) && hist != [] ==>
              && StateOf(leaky, hist).water == token.burst as real - StateOf(token, hist).tokens
              && StateOf(leaky, hist).updatedAt == StateOf(token, hist).updatedAt == Some(Last(hist))
              && StateOf(leaky, hist).expiresAt == StateOf(token, hist).expiresAt
    ensures Legal(token, hist) ==> forall now: nat :: UpTo(hist, now) ==>
              && Decide(token, hist, now).allowed == Decide(leaky, hist, now).allowed
              && Decide(token, hist, now).retry == Decide(leaky, hist, now).retry
  {
    if hist == [] {
    } else {
      var front := Front(hist);
      TokenAndLeakyAgree(token, leaky, front);
      if Legal(token, front) {
        DualStep(token, leaky, Last(hist), StateOf(token, front), StateOf(leaky, front));
      }
    }
    if Legal(token, hist) {
      forall now: nat | UpTo(hist, now)
        ensures Decide(token, hist, now).allowed == Decide(leaky, hist, now).allowed
        ensures Decide(token, hist, now).retry == Decide(leaky, hist, now).retry
      {
        DualStep(token, leaky, now, StateOf(token, hist), StateOf(leaky, hist));
      }
    }
  }

  /** What one admission does to the tokens: at most the gain of the elapsed time, less one. */
  lemma TokenStep(request: Request, hist: History)
    requires request.Valid() && request.algorithm.TokenBucket? && Legal(request, hist) && hist != []
    ensures StateOf(request, hist).tokens <= request.burst as real - 1.0
    ensures Front(hist) != [] ==>
              StateOf(request, hist).tokens <= StateOf(request, Front(hist)).tokens
                                               + Gain(Last(hist) - Last(Front(hist)), request.tokensPerSecond) - 1.0
  {
    if Front(hist) != [] { TokenShape(request, Front(hist)); }
  }

  /** Tokens left plus admissions since `from` never exceed what the interval could supply. */
  lemma {:induction false} TokenBudget(request: Request, hist: History, from: nat)
    requires request.Valid() && request.algorithm.TokenBucket? && Legal(request, hist) && hist != []
    requires from <= Last(hist)
    ensures CountIn(hist, from, Last(hist) + 1) as real + StateOf(request, hist).tokens
              <= request.burst as real + Gain(Last(hist) - from, request.tokensPerSecond)
  {
    var front, last, rate := Front(hist), Last(hist), request.tokensPerSecond;
    LegalIsSorted(request, hist);
    hide Gain;
    SecondsScale(0, last - from, rate);
    TokenStep(request, hist);
    if front == [] || Last(front) < from {
      CountNothing(front, from, last + 1);
    } else {
      TokenBudget(request, front, from);
      CountAfterLast(front, from, Last(front) + 1, last + 1);
      SecondsScale(Last(front) - from, last - from, rate);
      assert last - from - (Last(front) - from) == last - Last(front);
    }
  }

  /** No interval [from, to] of any run admits more than burst + rate * length. */
  lemma {:induction false} TokenAdmissionBound(request: Request, hist: History, from: nat, to: nat)
    requires request.Valid() && request.algorithm.TokenBucket? && Legal(request, hist)
    requires from <= to
    ensures CountIn(hist, from, to + 1) as real
              <= request.burst as real + Gain(to - from, request.tokensPerSecond)
  {
    SecondsScale(0, to - from, request.tokensPerSecond);
    if hist == [] {
    } else if Last(hist) > to {
      TokenAdmissionBound(request, Front(hist), from, to);
    } else if Last(hist) < from {
      LegalIsSorted(request, hist);
      CountNothing(hist, from, to + 1);
    } else {
      TokenBudgetAtEnd(request, hist, from, to);
    }
  }

  lemma TokenBudgetAtEnd(request: Request, hist: History, from: nat, to: nat)
    requires request.Valid() && request.algorithm.TokenBucket? && Legal(request, hist)
    requires hist != [] && from <= Last(hist) <= to
    ensures CountIn(hist, from, to + 1) as real
              <= request.burst as real + Gain(to - from, request.tokensPerSecond)
  {
    hide Gain;
    TokenBudget(request, hist, from);
    TokenShape(request, hist);
    LegalIsSorted(request, hist);
    CountAfterLast(hist, from, Last(hist) + 1, to + 1);
    var rate := request.tokensPerSecond;
    SecondsScale(Last(hist) - from, to - from, rate);
  }

  /** The same bound for the leaky bucket, through the bisimulation. */
  lemma LeakyAdmissionBound(request: Request, hist: History, from: nat, to: nat)
    requires request.Valid() && request.algorithm.LeakyBucket? && Legal(request, hist)
    requires from <= to
    ensures CountIn(hist, from, to + 1) as real
              <= request.capacity as real + Gain(to - from, request.leakRatePerSecond)
  {
    var token := request.(algorithm := TokenBucket, burst := request.capacity,
                          tokensPerSecond := request.leakRatePerSecond);
    TokenAndLeakyAgree(token, request, hist);
    hide Gain;
    TokenAdmissionBound(token, hist, from, to);
  }

  // ---------- exactly when a bucket admits ----------

  lemma GainAdds(a: int, b: int, rate: real)
    ensures Gain(a, rate) + Gain(b, rate) == Gain(a + b, rate)
  {
    assert Seconds(a) + Seconds(b) == Seconds(a + b);
  }

  /** From every admission on, `spare` more tokens than were taken have been supplied. */
  ghost predicate Supplied(hist: History, now: nat, size: int, rate: real, spare: real) {
    forall i :: 0 <= i < |hist| ==> size as real + Gain(now - hist[i], rate) >= (|hist| - i) as real + spare
  }

  /** One admission more, seen from before and after it. */
  lemma SuppliedStep(front: History, last: nat, now: nat, size: int, rate: real, spare: real)
    requires last <= now && forall i :: 0 <= i < |front| ==> front[i] <= last
    ensures Supplied(front + [last], now, size, rate, spare) <==>
            && Supplied(front, last, size, rate, spare + 1.0 - Gain(now - last, rate))
            && size as real + Gain(now - last, rate) >= 1.0 + spare
  {
    hide Gain;
    var hist := front + [last];
    forall i | 0 <= i < |front| ensures Gain(now - hist[i], rate) == Gain(last - front[i], rate) + Gain(now - last, rate) {
      assert hist[i] == front[i] <= last;
      GainAdds(last - front[i], now - last, rate);
    }
    assert hist[|front|] == last;
    if Supplied(hist, now, size, rate, spare) {
      forall i | 0 <= i < |front|
        ensures size as real + Gain(last - front[i], rate) >= (|front| - i) as real + (spare + 1.0 - Gain(now - last, rate))
      {
        assert size as real + Gain(now - hist[i], rate) >= (|hist| - i) as real + spare;
      }
    }
  }

  lemma LevelStep(request: Request, hist: History, now: nat)
    requires request.Valid() && request.algorithm.TokenBucket? && Legal(request, hist) && UpTo(hist, now) && hist != []
    requires StateOf(request, hist).updatedAt == Some(Last(hist))
    ensures Refilled(now, request, StateOf(request, hist))
         == Min(request.burst as real,
                Refilled(Last(hist), request, StateOf(request, Front(hist))) - 1.0
                + Gain(now - Last(hist), request.tokensPerSecond))
  {
  }

  /** The level of a bucket is what the tightest of its admissions leaves. */
  lemma {:induction false} LevelExact(request: Request, hist: History, now: nat, spare: real)
    requires request.Valid() && request.algorithm.TokenBucket? && Legal(request, hist) && UpTo(hist, now)
    ensures Refilled(now, request, StateOf(request, hist)) >= spare <==>
            request.burst as real >= spare && Supplied(hist, now, request.burst, request.tokensPerSecond, spare)
  {
    var size, rate := request.burst, request.tokensPerSecond;
    if hist == [] {
    } else {
      var front, last := Front(hist), Last(hist);
      TokenShape(request, hist);
      LegalIsSorted(request, hist);
      LevelExact(request, front, last, spare + 1.0 - Gain(now - last, rate));
      LevelStep(request, hist, now);
      SuppliedStep(front, last, now, size, rate, spare);
      assert hist == front + [last];
      hide StateOf, Refilled, Gain, Supplied;
    }
  }

  /** Admitting one more request would break no bound on an interval that starts at an earlier admission. */
  ghost predicate WithinBounds(hist: History, now: nat, size: int, rate: real) {
    forall i :: 0 <= i < |hist| ==> (|hist| - i + 1) as real <= size as real + Gain(now - hist[i], rate)
  }

  /** A token bucket admits exactly what its bounds allow; a new one admits `burst` requests at once. */
  lemma TokenExact(request: Request, hist: History, now: nat)
    requires request.Valid() && request.algorithm.TokenBucket? && Legal(request, hist) && UpTo(hist, now)
    ensures Decide(request, hist, now).allowed <==> WithinBounds(hist, now, request.burst, request.tokensPerSecond)
    ensures |hist| < request.burst ==> Decide(request, hist, now).allowed
  {
    LevelExact(request, hist, now, 1.0);
    LegalIsSorted(request, hist);
    if |hist| < request.burst {
      forall i | 0 <= i < |hist|
        ensures (|hist| - i + 1) as real <= request.burst as real + Gain(now - hist[i], request.tokensPerSecond)
      {
        SecondsScale(0, now - hist[i], request.tokensPerSecond);
      }
    }
    hide Refilled, StateOf, Gain;
  }

  /** And so does a leaky bucket. */
  lemma LeakyExact(request: Request, hist: History, now: nat)
    requires request.Valid() && request.algorithm.LeakyBucket? && Legal(request, hist) && UpTo(hist, now)
    ensures Decide(request, hist, now).allowed <==> WithinBounds(hist, now, request.capacity, request.leakRatePerSecond)
    ensures |hist| < request.capacity ==> Decide(request, hist, now).allowed
  {
    var token := request.(algorithm := TokenBucket, burst := request.capacity,
                          tokensPerSecond := request.leakRatePerSecond);
    TokenAndLeakyAgree(token, request, hist);
    TokenExact(token, hist, now);
  }
}
