/**
 The simulation of the Lua script over whole batches and whole runs.
 */
module RateLimitAgreementRuns {
  import opened Wrappers
  import opened RateLimitRequest
  import opened RateLimitApply
  import opened RateLimitHistory
  import opened RateLimitMemory
  import opened RateLimitRuns
  import opened RateLimitRedis
  import opened RateLimitVerdicts
  import opened RateLimitAgreement

  // ---------- the first loop ----------

  predicate SameEntry(ks: Keyspace, ks': Keyspace, key: string) {
    if key in ks then key in ks' && ks[key] == ks'[key] else key !in ks'
  }

  /** A key's representation depends on its own entry and its sequence entry only. */
  lemma RepFrame(ks: Keyspace, ks': Keyspace, r: Request, trail: Trail, now: nat)
    requires r.Valid() && Rep(ks, r, trail, now)
    requires SameEntry(ks, ks', r.key) && SameEntry(ks, ks', r.key + SEQUENCE_SUFFIX)
    ensures Rep(ks', r, trail, now)
  {
    hide Times, StateOf, StoredHash, KeyTTL, Recent, ScoreMap, Request.Validate, Distinct;
    if r.algorithm.SlidingWindowLog? {
      var cutoff :| cutoff <= now - Millis(r.window) && CutAt(ks, r.key, trail, cutoff);
      assert CutAt(ks', r.key, trail, cutoff);
    }
  }

  /** Sequence keys of different keys differ, and none is a key itself. */
  lemma SequenceKeysApart(config: Config, a: string, b: string)
    requires GoodConfig(config) && a in config && b in config && a != b
    ensures a + SEQUENCE_SUFFIX != b + SEQUENCE_SUFFIX && a + SEQUENCE_SUFFIX != b && a != b + SEQUENCE_SUFFIX
  {
    assert (a + SEQUENCE_SUFFIX)[..|a|] == a;
    assert (b + SEQUENCE_SUFFIX)[..|b|] == b;
  }

  /** A step that touches only one key's two entries leaves every other key represented. */
  lemma OthersFramed(config: Config, ks: Keyspace, ks': Keyspace, trails: Trails, trails': Trails,
                     histories: Histories, histories': Histories, now: nat, key: string)
    requires GoodConfig(config) && key in config
    requires Represents(config, ks, trails, histories, now)
    requires forall k :: k != key && k != key + SEQUENCE_SUFFIX ==> SameEntry(ks, ks', k)
    requires forall k :: k in config && k != key ==>
               TrailOf(trails', k) == TrailOf(trails, k) && HistoryOf(histories', k) == HistoryOf(histories, k)
    requires Times(TrailOf(trails', key)) == HistoryOf(histories', key) && Rep(ks', config[key], TrailOf(trails', key), now)
    ensures Represents(config, ks', trails', histories', now)
  {
    hide Times, Rep, Request.Validate, TrailOf, HistoryOf;
    forall k | k in config && k != key ensures Rep(ks', config[k], TrailOf(trails', k), now) {
      SequenceKeysApart(config, key, k);
      RepFrame(ks, ks', config[k], TrailOf(trails, k), now);
    }
  }

  /** Pruning one key leaves every key represented. */
  lemma PruneKeeps(config: Config, ks: Keyspace, trails: Trails, histories: Histories, now: nat, r: Request)
    requires GoodConfig(config) && r.Valid() && r.key in config && config[r.key] == r
    requires LegalHistories(config, histories, now * MILLISECOND)
    requires Represents(config, ks, trails, histories, now)
    ensures Represents(config, Pruned(ks, now, r), trails, histories, now)
  {
    hide Legal, Times, StateOf, StoredHash, KeyTTL, Recent, ScoreMap, Request.Validate, Distinct;
    if r.algorithm.SlidingWindowLog? {
      var ks', trail := Pruned(ks, now, r), TrailOf(trails, r.key);
      LogJudge(ks, r, trail, now);
      assert LogRep(ks', r, trail, now);
      assert CounterRep(ks', r, trail, now);
      hide Rep, Represents;
      OthersFramed(config, ks, ks', trails, trails, histories, histories, now, r.key) by {
        assert Rep(ks', r, trail, now) by { RepOfLog(ks', r, trail, now); }
      }
    }
  }

  lemma RepOfLog(ks: Keyspace, r: Request, trail: Trail, now: nat)
    requires r.Valid() && r.algorithm.SlidingWindowLog? && LogRep(ks, r, trail, now) && CounterRep(ks, r, trail, now)
    ensures Rep(ks, r, trail, now)
  {
  }

  /** One verdict, whatever the algorithm. */
  lemma JudgeDecides(config: Config, ks: Keyspace, trails: Trails, histories: Histories, now: nat, r: Request)
    requires GoodConfig(config) && r.Valid() && r.key in config && config[r.key] == r
    requires LegalHistories(config, histories, now * MILLISECOND)
    requires Represents(config, ks, trails, histories, now)
    ensures Agrees(Judge(Pruned(ks, now, r), now, r), r, Decide(r, HistoryOf(histories, r.key), now * MILLISECOND), now)
  {
    hide Legal, Times, Decide, LogRep, HashRep, CounterRep, Agrees, Judge;
    if r.algorithm.SlidingWindowLog? {
      LogJudge(ks, r, TrailOf(trails, r.key), now);
    } else {
      HashJudge(ks, r, TrailOf(trails, r.key), now);
    }
  }

  /** The first loop computes the reference limiter's decision on the whole batch. */
  ghost predicate LoopAgrees(histories: Histories, now: nat, requests: seq<Request>, loop: FirstLoop)
    requires AllValid(requests) && |loop.staged| == |requests|
  {
    && loop.maxRetry == CeilMillis(MaxRetry(histories, now * MILLISECOND, requests))
    && (loop.maxRetry > 0 <==> !AllAllowed(histories, now * MILLISECOND, requests))
    && (loop.maxRetry <= 0 ==> AllStaged(histories, now, requests, loop.staged))
  }

  ghost predicate AllStaged(histories: Histories, now: nat, requests: seq<Request>, staged: seq<Staged>)
    requires AllValid(requests) && |staged| == |requests|
  {
    forall i :: 0 <= i < |requests| ==>
      staged[i] == StagedFor(requests[i], Decide(requests[i], HistoryOf(histories, requests[i].key), now * MILLISECOND).next, now)
  }

  lemma {:induction false} JudgeAllAgrees(config: Config, ks: Keyspace, trails: Trails, histories: Histories,
                                          now: nat, requests: seq<Request>)
    requires GoodConfig(config) && AllValid(requests) && Consistent(config, requests)
    requires LegalHistories(config, histories, now * MILLISECOND)
    requires Represents(config, ks, trails, histories, now)
    ensures Represents(config, JudgeAll(ks, now, requests).ks, trails, histories, now)
    ensures LoopAgrees(histories, now, requests, JudgeAll(ks, now, requests))
  {
    hide Legal, Decide, Rep, Judge, Request.Validate, Represents, LegalHistories, Pruned;
    if requests == [] {
      assert CeilMillis(0) == 0;
      assert JudgeAll(ks, now, requests).ks == ks;
    } else {
      var front, r := requests[..|requests| - 1], requests[|requests| - 1];
      assert requests == front + [r];
      assert config[r.key] == r;
      JudgeAllAgrees(config, ks, trails, histories, now, front);
      var before := JudgeAll(ks, now, front);
      PruneKeeps(config, before.ks, trails, histories, now, r);
      JudgeDecides(config, before.ks, trails, histories, now, r);
      LoopStep(histories, now, front, r, before, Judge(Pruned(before.ks, now, r), now, r), Pruned(before.ks, now, r));
    }
  }

  lemma LoopStep(histories: Histories, now: nat, front: seq<Request>, r: Request, before: FirstLoop,
                 verdict: Verdict, ks: Keyspace)
    requires AllValid(front) && r.Valid() && |before.staged| == |front|
    requires LoopAgrees(histories, now, front, before)
    requires Agrees(verdict, r, Decide(r, HistoryOf(histories, r.key), now * MILLISECOND), now)
    requires before.maxRetry >= 0
    ensures LoopAgrees(histories, now, front + [r],
                       FirstLoop(ks, before.staged + [verdict.staged],
                                 if verdict.retry > before.maxRetry then verdict.retry else before.maxRetry))
  {
    hide Decide, StagedFor, Request.Validate, HistoryOf, CeilMillis;
    var requests, nanos := front + [r], now * MILLISECOND;
    assert requests[..|front|] == front;
    var retry, largest := Decide(r, HistoryOf(histories, r.key), nanos).retry, MaxRetry(histories, nanos, front);
    if retry <= largest { CeilMonotone(retry, largest); } else { CeilMonotone(largest, retry); }
    assert forall q :: q in requests <==> q in front || q == r;
  }

  // ---------- the second loop ----------

  lemma {:induction false} RecentAppend(trail: Trail, m: Member, cutoff: int)
    requires m.time > cutoff
    ensures Recent(trail + [m], cutoff) == Recent(trail, cutoff) + [m]
  {
    if trail != [] && trail[0].time <= cutoff {
      assert (trail + [m])[1..] == trail[1..] + [m];
      RecentAppend(trail[1..], m, cutoff);
    }
  }

  lemma ScoreMapAppend(trail: Trail, m: Member)
    ensures ScoreMap(trail + [m]) == ScoreMap(trail)[m := m.time]
  {
  }

  /** The new member differs from all others: an equal time means the sequence key is still alive. */
  lemma NewMemberDistinct(ks: Keyspace, r: Request, trail: Trail, now: nat)
    requires r.Valid() && r.algorithm.SlidingWindowLog? && Millis(r.window) > 0
    requires Ordered(trail) && Distinct(trail) && CounterRep(ks, r, trail, now)
    requires trail != [] ==> Newest(trail).time <= now
    requires Number(ks, r.key + SEQUENCE_SUFFIX) >= 0
    ensures var m := Member(now, Number(ks, r.key + SEQUENCE_SUFFIX) + 1);
            && Distinct(trail + [m])
            && forall n :: n in trail + [m] && n.time == now ==> n.sequence <= m.sequence
  {
    var m := Member(now, Number(ks, r.key + SEQUENCE_SUFFIX) + 1);
    forall n | n in trail && n.time == now ensures n.sequence < m.sequence {
      var i :| 0 <= i < |trail| && trail[i] == n;
      assert trail[i].time <= trail[|trail| - 1].time;
    }
    assert m !in trail;
  }

  lemma WriteLog(ks: Keyspace, r: Request, trail: Trail, now: nat) returns (m: Member)
    requires r.Valid() && r.algorithm.SlidingWindowLog? && Millis(r.window) > 0
    requires Ordered(trail) && (trail != [] ==> Newest(trail).time <= now) && Rep(ks, r, trail, now)
    ensures m.time == now
    ensures Rep(WriteBack(ks, now, r, LogStaged(now, Millis(r.window))), r, trail + [m], now)
  {
    var counterKey := r.key + SEQUENCE_SUFFIX;
    assert counterKey != r.key by { assert |counterKey| > |r.key|; }
    hide Recent, ScoreMap, Request.Validate, Millis;
    NewMemberDistinct(ks, r, trail, now);
    m := Member(now, Number(ks, counterKey) + 1);
    var ks', trail' := WriteBack(ks, now, r, LogStaged(now, Millis(r.window))), trail + [m];
    assert Scores(ks', r.key) == Scores(ks, r.key)[m := now];
    var cutoff :| cutoff <= now - Millis(r.window) && CutAt(ks, r.key, trail, cutoff);
    RecentAppend(trail, m, cutoff);
    ScoreMapAppend(Recent(trail, cutoff), m);
    assert CutAt(ks', r.key, trail', cutoff);
    assert Newest(trail') == m;
    assert LogRep(ks', r, trail', now) by { hide CounterRep; }
    assert CounterRep(ks', r, trail', now) by { hide LogRep; }
  }

  /** Writing a hash back replaces all fields its algorithm uses. */
  lemma WriteHash(ks: Keyspace, r: Request, state: State, next: State, at: nat, now: nat)
    requires r.Valid() && !r.algorithm.SlidingWindowLog?
    requires r.key in ks ==> exists d :: ks[r.key] == Entry(HashValue(StoredHash(r, state, at)), d)
    ensures var ks' := WriteBack(ks, now, r, StagedFor(r, next, now));
            r.key in ks' && ks'[r.key] == Entry(HashValue(StoredHash(r, next, now)), Some(now + KeyTTL(r)))
  {
    hide KeyTTL;
  }

  lemma HashRepWritten(ks: Keyspace, r: Request, trail: Trail, now: nat, next: State)
    requires r.Valid() && !r.algorithm.SlidingWindowLog? && HashRep(ks, r, trail, now)
    requires next == Decide(r, Times(trail), now * MILLISECOND).next
    ensures HashRep(WriteBack(ks, now, r, StagedFor(r, next, now)), r, trail + [Member(now, 0)], now)
  {
    hide Apply, KeyTTL, Request.Validate, WriteBack, StagedFor;
    var hist, m := Times(trail), Member(now, 0);
    TimesAppend(trail, m);
    assert Front(hist + [now * MILLISECOND]) == hist;
    assert StoredHash(r, StateOf(r, Times(trail + [m])), now) == StoredHash(r, next, now);
    var at := if trail == [] then 0 else Newest(trail).time;
    WriteHash(ks, r, StateOf(r, hist), next, at, now);
    assert Newest(trail + [m]) == m;
  }

  /** A write touches no entry but the key's own and its sequence key's. */
  lemma WriteFrame(ks: Keyspace, now: nat, r: Request, staged: Staged, key: string)
    requires key != r.key && key != r.key + SEQUENCE_SUFFIX
    ensures SameEntry(ks, WriteBack(ks, now, r, staged), key)
  {
  }

  lemma WriteRep(ks: Keyspace, r: Request, trail: Trail, now: nat) returns (m: Member)
    requires r.Valid() && (r.algorithm.SlidingWindowLog? ==> Millis(r.window) > 0)
    requires Ordered(trail) && (trail != [] ==> Newest(trail).time <= now) && Rep(ks, r, trail, now)
    ensures m.time == now
    ensures var next := Decide(r, Times(trail), now * MILLISECOND).next;
            Rep(WriteBack(ks, now, r, StagedFor(r, next, now)), r, trail + [m], now)
  {
    hide Times, Decide, Apply, LogRep, HashRep, CounterRep, WriteBack, Request.Validate;
    if r.algorithm.SlidingWindowLog? {
      m := WriteLog(ks, r, trail, now);
    } else {
      m := Member(now, 0);
      HashRepWritten(ks, r, trail, now, Decide(r, Times(trail), now * MILLISECOND).next);
    }
  }

  lemma ValidLogWindow(r: Request)
    requires r.Valid() && r.algorithm.SlidingWindowLog?
    ensures Millis(r.window) > 0
  {
  }

  /** Recording one request appends its admission to its own key's history and to no other. */
  lemma RecordOne(histories: Histories, now: nat, r: Request)
    ensures Record(histories, now, [r]).Keys == histories.Keys + {r.key}
    ensures forall key :: HistoryOf(Record(histories, now, [r]), key)
              == if key == r.key then HistoryOf(histories, key) + [now] else HistoryOf(histories, key)
  {
    assert Keys([r]) == {r.key};
  }

  /** One write of the second loop records the admission of its key. */
  lemma WriteKeeps(config: Config, ks: Keyspace, trails: Trails, histories: Histories, now: nat, r: Request)
    returns (trails': Trails)
    requires GoodConfig(config) && r.Valid() && r.key in config && config[r.key] == r
    requires LegalHistories(config, histories, now * MILLISECOND)
    requires Represents(config, ks, trails, histories, now)
    ensures var next := Decide(r, HistoryOf(histories, r.key), now * MILLISECOND).next;
            Represents(config, WriteBack(ks, now, r, StagedFor(r, next, now)), trails',
                       Record(histories, now * MILLISECOND, [r]), now)
  {
    hide Decide, Apply, StateOf, WriteBack, StagedFor, Legal, Rep, Times, Request.Validate, Record, HistoryOf;
    if r.algorithm.SlidingWindowLog? { ValidLogWindow(r); }
    var trail, nanos := TrailOf(trails, r.key), now * MILLISECOND;
    var next := Decide(r, HistoryOf(histories, r.key), nanos).next;
    var ks' := WriteBack(ks, now, r, StagedFor(r, next, now));
    forall k | k != r.key && k != r.key + SEQUENCE_SUFFIX ensures SameEntry(ks, ks', k) {
      WriteFrame(ks, now, r, StagedFor(r, next, now), k);
    }
    LegalTrail(r, trail, now);
    var m := WriteRep(ks, r, trail, now);
    trails' := trails[r.key := trail + [m]];
    TimesAppend(trail, m);
    RecordOne(histories, nanos, r);
    var histories' := Record(histories, nanos, [r]);
    OthersFramed(config, ks, ks', trails, trails', histories, histories', now, r.key);
  }

  lemma RecordInSteps(histories: Histories, now: nat, front: seq<Request>, r: Request)
    requires forall q :: q in front ==> q.key != r.key
    ensures Record(Record(histories, now, front), now, [r]) == Record(histories, now, front + [r])
    ensures HistoryOf(Record(histories, now, front), r.key) == HistoryOf(histories, r.key)
  {
    KeysAppend(front, r);
    assert Keys([r]) == {r.key};
    RecordKeyByKey(histories, now, Keys(front), r.key);
  }

  lemma RecordKeyByKey(histories: Histories, now: nat, keys: set<string>, key: string)
    requires key !in keys
    ensures RecordKeys(RecordKeys(histories, now, keys), now, {key}) == RecordKeys(histories, now, keys + {key})
  {
  }

  /** The second loop records the admission of the whole batch. */
  lemma {:induction false} WriteAllKeeps(config: Config, ks: Keyspace, trails: Trails, histories: Histories, now: nat,
                                         requests: seq<Request>, staged: seq<Staged>)
    returns (trails': Trails)
    requires GoodConfig(config) && AllValid(requests) && DistinctKeys(requests) && Consistent(config, requests)
    requires |staged| == |requests| && AllStaged(histories, now, requests, staged)
    requires AllAllowed(histories, now * MILLISECOND, requests)
    requires LegalHistories(config, histories, now * MILLISECOND)
    requires Represents(config, ks, trails, histories, now)
    ensures LegalHistories(config, Record(histories, now * MILLISECOND, requests), now * MILLISECOND)
    ensures Represents(config, WriteAll(ks, now, requests, staged), trails', Record(histories, now * MILLISECOND, requests), now)
  {
    hide Decide, Represents, LegalHistories, WriteBack, Request.Validate, StagedFor, HistoryOf, Record;
    var nanos, n := now * MILLISECOND, |requests| - 1;
    if requests == [] {
      assert Record(histories, nanos, []) == histories by { RecordNothing(histories, nanos); }
      trails' := trails;
    } else {
      var front, r := requests[..n], requests[n];
      assert requests == front + [r] && config[r.key] == r;
      assert forall q :: q in front ==> q in requests;
      var middle := WriteAllKeeps(config, ks, trails, histories, now, front, staged[..n]);
      RecordInSteps(histories, nanos, front, r);
      var histories' := Record(histories, nanos, front);
      trails' := WriteKeeps(config, WriteAll(ks, now, front, staged[..n]), middle, histories', now, r);
      RecordLegal(config, histories', nanos, r);
    }
  }

  lemma RecordNothing(histories: Histories, now: nat)
    ensures Record(histories, now, []) == histories
  {
  }

  lemma RecordLegal(config: Config, histories: Histories, now: nat, r: Request)
    requires ValidConfig(config) && r.Valid() && r.key in config && config[r.key] == r
    requires LegalHistories(config, histories, now) && Decide(r, HistoryOf(histories, r.key), now).allowed
    ensures LegalHistories(config, Record(histories, now, [r]), now)
  {
    hide Legal, Decide, Request.Validate, Record, HistoryOf;
    LegalExtends(r, HistoryOf(histories, r.key), now);
    RecordOne(histories, now, r);
  }

  // ---------- expiry ----------

  /** Redis drops any of the chosen keys whose deadline has come. */
  function Evicted(ks: Keyspace, now: nat, gone: set<string>): Keyspace {
    map key | key in ks && !(key in gone && ks[key].deadline.Some? && ks[key].deadline.value <= now) :: ks[key]
  }

  lemma {:induction false} RecentNone(trail: Trail, cutoff: int)
    requires forall i :: 0 <= i < |trail| ==> trail[i].time <= cutoff
    ensures Recent(trail, cutoff) == []
  {
    if trail == [] {
    } else {
      RecentNone(trail[1..], cutoff);
    }
  }

  lemma EvictLog(ks: Keyspace, r: Request, trail: Trail, from: nat, now: nat, gone: set<string>)
    requires r.Valid() && r.algorithm.SlidingWindowLog? && from <= now
    requires Ordered(trail) && Rep(ks, r, trail, from)
    ensures Rep(Evicted(ks, now, gone), r, trail, now)
  {
    hide Recent, Request.Validate;
    var ks', window := Evicted(ks, now, gone), Millis(r.window);
    var cutoff :| cutoff <= from - window && CutAt(ks, r.key, trail, cutoff);
    if r.key in ks && r.key !in ks' {
      RecentNone(trail, now - window);
      assert CutAt(ks', r.key, trail, now - window);
    } else {
      assert CutAt(ks', r.key, trail, cutoff);
    }
  }

  lemma EvictKeeps(config: Config, ks: Keyspace, trails: Trails, histories: Histories, from: nat, now: nat,
                   gone: set<string>)
    requires GoodConfig(config) && from <= now
    requires LegalHistories(config, histories, from * MILLISECOND) && Represents(config, ks, trails, histories, from)
    ensures Represents(config, Evicted(ks, now, gone), trails, histories, now)
  {
    hide Legal, Times, StateOf, StoredHash, KeyTTL, Request.Validate, LogRep, CounterRep;
    forall key | key in config ensures Rep(Evicted(ks, now, gone), config[key], TrailOf(trails, key), now) {
      var r, trail := config[key], TrailOf(trails, key);
      LegalTrail(r, trail, from);
      if r.algorithm.SlidingWindowLog? { EvictLog(ks, r, trail, from, now, gone); }
    }
  }

  // ---------- runs ----------

  /** One call of the Redis limiter; `gone` are the keys Redis is willing to expire just before it. */
  datatype RedisCall = RedisCall(now: nat, requests: seq<Request>, gone: set<string>)

  ghost function RedisRun(ks: Keyspace, calls: seq<RedisCall>): seq<Outcome>
    decreases |calls|
  {
    if calls == [] then []
    else
      var (ks', outcome) := TakeRedis(Evicted(ks, calls[0].now, calls[0].gone), calls[0].now, calls[0].requests);
      [outcome] + RedisRun(ks', calls[1..])
  }

  /** The same calls as the in-process limiter sees them, in nanoseconds. */
  function GoCalls(calls: seq<RedisCall>): seq<Call> {
    if calls == [] then [] else [Call(calls[0].now * MILLISECOND, calls[0].requests)] + GoCalls(calls[1..])
  }

  predicate SmallBatches(calls: seq<RedisCall>) {
    forall call :: call in calls ==> |call.requests| <= 100
  }

  /** Equal decisions and errors; the script's delay is Go's rounded up to whole milliseconds. */
  predicate SameOutcome(redis: Outcome, go: Outcome) {
    && redis.allowed == go.allowed
    && redis.error == go.error
    && redis.retryAfter == CeilMillis(go.retryAfter) * MILLISECOND
  }

  lemma ScriptAgrees(config: Config, ks: Keyspace, trails: Trails, histories: Histories, now: nat,
                     requests: seq<Request>)
    returns (trails': Trails)
    requires GoodConfig(config) && Consistent(config, requests) && AllValid(requests) && DistinctKeys(requests)
    requires LegalHistories(config, histories, now * MILLISECOND) && Represents(config, ks, trails, histories, now)
    ensures var allowed := AllAllowed(histories, now * MILLISECOND, requests);
            var (ks', outcome) := Script(ks, now, requests);
            && outcome.allowed == allowed && outcome.error == None
            && outcome.retryAfter
                 == (if allowed then 0 else CeilMillis(MaxRetry(histories, now * MILLISECOND, requests)) * MILLISECOND)
            && Represents(config, ks', trails',
                          if allowed then Record(histories, now * MILLISECOND, requests) else histories, now)
  {
    hide Decide, Represents, LegalHistories, Request.Validate, Record, JudgeAll, WriteAll, MaxRetry, CeilMillis, AllAllowed, AllStaged;
    trails' := trails;
    JudgeAllAgrees(config, ks, trails, histories, now, requests);
    var loop := JudgeAll(ks, now, requests);
    if loop.maxRetry <= 0 {
      trails' := WriteAllKeeps(config, loop.ks, trails, histories, now, requests, loop.staged);
    }
  }

  lemma TakeAgrees(config: Config, ks: Keyspace, trails: Trails, histories: Histories, now: nat, requests: seq<Request>)
    returns (trails': Trails)
    requires GoodConfig(config) && Consistent(config, requests) && |requests| <= MAX_BATCH
    requires LegalHistories(config, histories, now * MILLISECOND) && Represents(config, ks, trails, histories, now)
    ensures SameOutcome(TakeRedis(ks, now, requests).1, RefTake(histories, now * MILLISECOND, requests).1)
    ensures Represents(config, TakeRedis(ks, now, requests).0, trails', RefTake(histories, now * MILLISECOND, requests).0, now)
  {
    hide Decide, Represents, LegalHistories, Request.Validate, Record, Script, MaxRetry;
    trails' := trails;
    FirstErrorMeaning(requests);
    assert CeilMillis(0) == 0;
    if requests == [] {
      RecordNothing(histories, now * MILLISECOND);
    } else if FirstError(requests).None? {
      trails' := ScriptAgrees(config, ks, trails, histories, now, requests);
    }
  }

  lemma {:induction false} RedisRunAgrees(config: Config, ks: Keyspace, trails: Trails, histories: Histories,
                                          from: nat, calls: seq<RedisCall>)
    requires GoodConfig(config) && SmallBatches(calls) && ValidRun(config, from * MILLISECOND, GoCalls(calls))
    requires LegalHistories(config, histories, from * MILLISECOND) && Represents(config, ks, trails, histories, from)
    ensures var redis, go := RedisRun(ks, calls), RefRun(histories, GoCalls(calls)).1;
            && |redis| == |go| == |calls|
            && forall i :: 0 <= i < |calls| ==> SameOutcome(redis[i], go[i])
    decreases |calls|
  {
    hide Represents, LegalHistories, TakeRedis, RefTake, Evicted, Consistent;
    if calls == [] {
    } else {
      var now, requests := calls[0].now, calls[0].requests;
      assert GoCalls(calls)[1..] == GoCalls(calls[1..]);
      EvictKeeps(config, ks, trails, histories, from, now, calls[0].gone);
      LegalLater(config, histories, from * MILLISECOND, now * MILLISECOND);
      var evicted := Evicted(ks, now, calls[0].gone);
      var trails' := TakeAgrees(config, evicted, trails, histories, now, requests);
      RefTakeLegal(config, histories, from * MILLISECOND, now * MILLISECOND, requests);
      var ks', histories' := TakeRedis(evicted, now, requests).0, RefTake(histories, now * MILLISECOND, requests).0;
      RedisRunAgrees(config, ks', trails', histories', now, calls[1..]);
      var redis, go := RedisRun(ks, calls), RefRun(histories, GoCalls(calls)).1;
      assert redis[1..] == RedisRun(ks', calls[1..]) && go[1..] == RefRun(histories', GoCalls(calls[1..])).1;
      forall i | 0 <= i < |calls| ensures SameOutcome(redis[i], go[i]) {
        if i > 0 { assert redis[i] == redis[1..][i - 1] && go[i] == go[1..][i - 1]; }
      }
    }
  }

  lemma LegalLater(config: Config, histories: Histories, from: nat, now: nat)
    requires ValidConfig(config) && LegalHistories(config, histories, from) && from <= now
    ensures LegalHistories(config, histories, now)
  {
    hide Legal;
  }

  /** The Redis limiter and the real in-process limiter agree call by call on every run, whatever Redis expires when. */
  lemma ImplementationsAgree(config: Config, calls: seq<RedisCall>)
    requires GoodConfig(config) && SmallBatches(calls) && ValidRun(config, 0, GoCalls(calls))
    ensures var redis, go := RedisRun(map[], calls), Run(EMPTY_STORE, GoCalls(calls)).1;
            && |redis| == |go| == |calls|
            && forall i :: 0 <= i < |calls| ==> SameOutcome(redis[i], go[i])
  {
    NothingStored(config);
    RedisRunAgrees(config, map[], map[], map[], 0, calls);
    EvictionUnobservable(config, GoCalls(calls));
  }

  lemma NothingStored(config: Config)
    requires GoodConfig(config)
    ensures LegalHistories(config, map[], 0) && Represents(config, map[], map[], map[], 0)
  {
    forall key | key in config ensures Rep(map[], config[key], [], 0) {
      assert CutAt(map[], key, [], 0 - Millis(config[key].window));
    }
  }
}
