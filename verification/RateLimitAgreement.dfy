/**
 The two implementations agree: on a whole-millisecond clock with whole-millisecond windows, the
 Lua script and the in-process limiter admit and deny the same batches over every run.

 Redis may drop any expired key at any moment from its deadline on; every such choice is covered.
 */
module RateLimitAgreement {
  import opened Wrappers
  import opened RateLimitRequest
  import opened RateLimitApply
  import opened RateLimitHistory
  import opened RateLimitWindows
  import opened RateLimitLaws
  import opened RateLimitRuns
  import opened RateLimitRedis
  import opened RateLimitVerdicts

  /** The members a key's log would hold if it were never pruned, oldest first. */
  type Trail = seq<Member>
  type Trails = map<string, Trail>

  function TrailOf(trails: Trails, key: string): Trail {
    if key in trails then trails[key] else []
  }

  function Newest(trail: Trail): Member
    requires trail != []
  {
    trail[|trail| - 1]
  }

  function Times(trail: Trail): History {
    if trail == [] then [] else Times(trail[..|trail| - 1]) + [Newest(trail).time * MILLISECOND]
  }

  lemma {:induction false} TimesAt(trail: Trail)
    ensures |Times(trail)| == |trail|
    ensures forall i :: 0 <= i < |trail| ==> Times(trail)[i] == trail[i].time * MILLISECOND
  {
    if trail == [] {
    } else {
      TimesAt(trail[..|trail| - 1]);
    }
  }

  lemma TimesAppend(trail: Trail, m: Member)
    ensures Times(trail + [m]) == Times(trail) + [m.time * MILLISECOND]
  {
    assert (trail + [m])[..|trail|] == trail;
  }

  // ---------- sorted sets ----------

  predicate Ordered(trail: Trail) {
    forall i, j :: 0 <= i <= j < |trail| ==> trail[i].time <= trail[j].time
  }

  predicate Distinct(trail: Trail) {
    forall i, j :: 0 <= i < j < |trail| ==> trail[i] != trail[j]
  }

  function ScoreMap(trail: Trail): map<Member, int> {
    map m | m in trail :: m.time
  }

  /** The members after the cutoff; the trail is in time order. */
  function Recent(trail: Trail, cutoff: int): Trail {
    if trail == [] || trail[0].time > cutoff then trail else Recent(trail[1..], cutoff)
  }

  lemma {:induction false} RecentIsSuffix(trail: Trail, cutoff: int) returns (dropped: nat)
    ensures dropped <= |trail| && Recent(trail, cutoff) == trail[dropped..]
    ensures forall i :: 0 <= i < dropped ==> trail[i].time <= cutoff
    ensures dropped < |trail| ==> trail[dropped].time > cutoff
  {
    if trail == [] || trail[0].time > cutoff {
      dropped := 0;
    } else {
      var rest := RecentIsSuffix(trail[1..], cutoff);
      dropped := rest + 1;
    }
  }

  lemma {:induction false} ScoreMapSize(trail: Trail)
    requires Distinct(trail)
    ensures |ScoreMap(trail)| == |trail|
  {
    if trail == [] {
    } else {
      var front, m := trail[..|trail| - 1], Newest(trail);
      ScoreMapSize(front);
      assert trail == front + [m];
      assert m !in front;
      assert ScoreMap(trail).Keys == ScoreMap(front).Keys + {m};
      assert |ScoreMap(trail).Keys| == |ScoreMap(front).Keys| + 1;
    }
  }

  /** Removing scores up to a cutoff leaves the recent members, whatever older cutoff was applied before. */
  lemma RecentFiltered(trail: Trail, earlier: int, cutoff: int)
    requires Ordered(trail) && earlier <= cutoff
    ensures (map m | m in ScoreMap(Recent(trail, earlier)) && ScoreMap(Recent(trail, earlier))[m] > cutoff
               :: ScoreMap(Recent(trail, earlier))[m])
         == ScoreMap(Recent(trail, cutoff))
  {
    var p := RecentIsSuffix(trail, earlier);
    var q := RecentIsSuffix(trail, cutoff);
    forall m ensures m in Recent(trail, cutoff) <==> m in Recent(trail, earlier) && m.time > cutoff {
      if m in Recent(trail, cutoff) {
        var i :| q <= i < |trail| && trail[i] == m;
        assert trail[q].time <= trail[i].time;
        assert trail[p..][i - p] == m;
      }
      if m in Recent(trail, earlier) && m.time > cutoff {
        var i :| p <= i < |trail| && trail[i] == m;
        assert trail[q..][i - q] == m;
      }
    }
  }

  lemma {:induction false} PruneTimes(trail: Trail, cutoff: int)
    ensures Prune(Times(trail), cutoff * MILLISECOND) == Times(Recent(trail, cutoff))
  {
    if trail == [] {
    } else {
      TimesHead(trail);
      if trail[0].time <= cutoff { PruneTimes(trail[1..], cutoff); }
    }
  }

  lemma {:induction false} TimesHead(trail: Trail)
    requires trail != []
    ensures Times(trail) == [trail[0].time * MILLISECOND] + Times(trail[1..])
  {
    TimesAt(trail);
    TimesAt(trail[1..]);
  }

  lemma OldestIsFirst(trail: Trail)
    requires Ordered(trail) && trail != []
    ensures OldestScore(ScoreMap(trail)) == trail[0].time
  {
    assert trail[0] in ScoreMap(trail);
    var score := OldestScore(ScoreMap(trail));
    assert IsOldest(ScoreMap(trail), score);
    assert score <= trail[0].time;
  }

  // ---------- what the stored data represents ----------

  /** A hash key holds the Go state of the history; it is gone only if that state is fresh or past its TTL. */
  ghost predicate HashRep(ks: Keyspace, r: Request, trail: Trail, now: nat)
    requires r.Valid()
  {
    if r.key in ks then
      && trail != []
      && ks[r.key] == Entry(HashValue(StoredHash(r, StateOf(r, Times(trail)), Newest(trail).time)),
                            Some(Newest(trail).time + KeyTTL(r)))
    else trail == [] || (Newest(trail).time + KeyTTL(r)) <= now
  }

  ghost predicate CutAt(ks: Keyspace, key: string, trail: Trail, cutoff: int) {
    Scores(ks, key) == ScoreMap(Recent(trail, cutoff))
  }

  /** A log key holds the trail from some cutoff on; its members are all different. */
  ghost predicate LogRep(ks: Keyspace, r: Request, trail: Trail, now: nat) {
    && Distinct(trail)
    && (exists cutoff :: cutoff <= now - Millis(r.window) && CutAt(ks, r.key, trail, cutoff))
    && (r.key in ks ==>
          && ks[r.key].value.SortedSet? && trail != []
          && ks[r.key].deadline == Some(Newest(trail).time + Millis(r.window)))
  }

  /** The sequence key outlives every member that shares the newest member's time. */
  ghost predicate CounterRep(ks: Keyspace, r: Request, trail: Trail, now: nat) {
    var key := r.key + SEQUENCE_SUFFIX;
    if key in ks then
      && ks[key].value.Counter? && trail != [] && ks[key].value.number >= 0
      && ks[key].deadline == Some(Newest(trail).time + Millis(r.window) * 2)
      && (forall m :: m in trail && m.time == Newest(trail).time ==> m.sequence <= ks[key].value.number)
    else trail == [] || Newest(trail).time + Millis(r.window) * 2 <= now
  }

  ghost predicate Rep(ks: Keyspace, r: Request, trail: Trail, now: nat)
    requires r.Valid()
  {
    if r.algorithm.SlidingWindowLog? then LogRep(ks, r, trail, now) && CounterRep(ks, r, trail, now)
    else HashRep(ks, r, trail, now)
  }

  ghost predicate Represents(config: Config, ks: Keyspace, trails: Trails, histories: Histories, now: nat)
    requires ValidConfig(config)
  {
    forall key :: key in config ==>
      && Times(TrailOf(trails, key)) == HistoryOf(histories, key)
      && Rep(ks, config[key], TrailOf(trails, key), now)
  }

  predicate MillisConfig(config: Config) {
    forall key :: key in config ==> WholeMillis(config[key])
  }

  /** No key is another key's sequence key. */
  predicate KeysApart(config: Config) {
    forall a, b :: a in config && b in config ==> a != b + ":sequence"
  }

  predicate GoodConfig(config: Config) {
    ValidConfig(config) && MillisConfig(config) && KeysApart(config)
  }

  lemma LegalTrail(r: Request, trail: Trail, now: nat)
    requires r.Valid() && Legal(r, Times(trail)) && UpToMillis(Times(trail), now)
    ensures Ordered(trail)
    ensures trail != [] ==> Last(Times(trail)) == Newest(trail).time * MILLISECOND && Newest(trail).time <= now
  {
    TimesAt(trail);
    LegalIsSorted(r, Times(trail));
    forall i, j | 0 <= i <= j < |trail| ensures trail[i].time <= trail[j].time {
      assert Times(trail)[i] <= Times(trail)[j];
    }
  }

  // ---------- verdicts ----------

  lemma HashVerdict(r: Request, hist: History, now: nat, at: nat)
    requires r.Valid() && !r.algorithm.SlidingWindowLog? && WholeMillis(r) && Legal(r, hist) && UpToMillis(hist, now)
    requires hist != [] ==> Last(hist) == at * MILLISECOND
    ensures forall ks :: Fields(ks, r.key) == FieldsOf(r, hist, at) ==>
              Agrees(Judge(ks, now, r), r, Decide(r, hist, now * MILLISECOND), now)
  {
    hide Apply, StateOf, FieldsOf, Legal;
    match r.algorithm
    case TokenBucket => TokenVerdict(r, hist, now, at);
    case FixedWindow => FixedVerdict(r, hist, now, at);
    case SlidingWindowCounter => SlidingVerdict(r, hist, now, at);
    case LeakyBucket => LeakyVerdict(r, hist, now, at);
  }

  lemma HashJudge(ks: Keyspace, r: Request, trail: Trail, now: nat)
    requires r.Valid() && !r.algorithm.SlidingWindowLog? && WholeMillis(r)
    requires Legal(r, Times(trail)) && UpToMillis(Times(trail), now) && HashRep(ks, r, trail, now)
    ensures Agrees(Judge(ks, now, r), r, Decide(r, Times(trail), now * MILLISECOND), now)
  {
    hide Apply, StateOf, Legal, Judge, StoredHash;
    LegalTrail(r, trail, now);
    if r.key in ks {
      HashVerdict(r, Times(trail), now, Newest(trail).time);
    } else {
      NoHistoryIsLegal(r);
      HashVerdict(r, [], now, 0);
      if trail != [] {
        TTLMatches(r);
        EvictionHarmless(r, Times(trail), now * MILLISECOND);
      }
    }
  }

  lemma NoHistoryIsLegal(r: Request)
    requires r.Valid()
    ensures Legal(r, [])
  {
  }

  /** Pruning a represented log leaves exactly the recent members, counted and with the oldest first. */
  lemma LogPrune(ks: Keyspace, r: Request, trail: Trail, now: nat)
    requires r.Valid() && r.algorithm.SlidingWindowLog?
    requires Ordered(trail) && LogRep(ks, r, trail, now)
    ensures var recent, scores := Recent(trail, now - Millis(r.window)), Scores(Pruned(ks, now, r), r.key);
            && scores == ScoreMap(recent) && |scores| == |recent|
            && (recent != [] ==> OldestScore(scores) == recent[0].time)
  {
    hide Recent, ScoreMap, Pruned, LogRep, Scores, Request.Validate, Millis;
    var cutoff := now - Millis(r.window);
    var recent := Recent(trail, cutoff);
    PrunedScores(ks, r, trail, now);
    var dropped := RecentIsSuffix(trail, cutoff);
    ScoreMapSize(recent);
    if recent != [] { OldestIsFirst(recent); }
  }

  lemma PrunedScores(ks: Keyspace, r: Request, trail: Trail, now: nat)
    requires r.Valid() && r.algorithm.SlidingWindowLog?
    requires Ordered(trail) && LogRep(ks, r, trail, now)
    ensures Scores(Pruned(ks, now, r), r.key) == ScoreMap(Recent(trail, now - Millis(r.window)))
    ensures Distinct(trail)
  {
    hide Recent, ScoreMap, Scores, ZRemUpTo, Request.Validate, Millis;
    var cutoff := now - Millis(r.window);
    var earlier :| earlier <= cutoff && CutAt(ks, r.key, trail, earlier);
    ZRemLeaves(ks, r.key, trail, earlier, cutoff);
  }

  lemma ZRemLeaves(ks: Keyspace, key: string, trail: Trail, earlier: int, cutoff: int)
    requires Ordered(trail) && earlier <= cutoff && CutAt(ks, key, trail, earlier)
    ensures CutAt(ZRemUpTo(ks, key, cutoff), key, trail, cutoff)
  {
    hide Recent, ScoreMap;
    RecentFiltered(trail, earlier, cutoff);
  }

  /** What the Go decision on the log comes down to once its events are pruned. */
  lemma LogDecision(r: Request, state: State, recent: Trail, oldest: int, now: nat)
    requires r.Valid() && r.algorithm.SlidingWindowLog? && WholeMillis(r)
    requires Prune(state.events, now * MILLISECOND - r.window) == Times(recent)
    requires recent != [] ==> oldest == recent[0].time
    ensures var decision := Apply(now * MILLISECOND, r, state);
            && decision.allowed == (|recent| < r.limit)
            && decision.retry == if |recent| < r.limit then 0
                                 else AtLeastOneMilli(oldest * MILLISECOND + Millis(r.window) * MILLISECOND - now * MILLISECOND)
  {
    hide Prune, Times, AtLeastOneMilli;
    TimesAt(recent);
    assert r.window == Millis(r.window) * MILLISECOND;
  }

  lemma LogStep(r: Request, state: State, recent: Trail, oldest: int, now: nat)
    requires r.Valid() && r.algorithm.SlidingWindowLog? && WholeMillis(r)
    requires Prune(state.events, now * MILLISECOND - r.window) == Times(recent)
    requires recent != [] ==> oldest == recent[0].time > now - Millis(r.window)
    ensures Agrees(JudgeLog(|recent|, oldest, now, r), r, Apply(now * MILLISECOND, r, state), now)
  {
    LogDecision(r, state, recent, oldest, now);
    LogTTL(r);
    LogWait(oldest, Millis(r.window), now);
    hide Prune, Times, CeilMillis, AtLeastOneMilli, KeyTTL, Apply, Millis, Request.Validate;
  }

  lemma LogWait(oldest: int, window: int, now: nat)
    ensures CeilMillis(0) == 0
    ensures oldest > now - window ==>
              var wait := AtLeastOneMilli(oldest * MILLISECOND + window * MILLISECOND - now * MILLISECOND);
              wait > 0 && CeilMillis(wait) == oldest + window - now
  {
    CeilAdd(oldest + window - now, 0);
  }

  lemma LogTTL(r: Request)
    requires r.Valid() && r.algorithm.SlidingWindowLog?
    ensures KeyTTL(r) == Millis(r.window)
  {
  }

  /** Pruning now leaves the log cut off one window before now. */
  lemma LogCut(ks: Keyspace, r: Request, trail: Trail, now: nat)
    requires r.Valid() && r.algorithm.SlidingWindowLog? && Ordered(trail) && LogRep(ks, r, trail, now)
    ensures CutAt(Pruned(ks, now, r), r.key, trail, now - Millis(r.window))
  {
    var earlier :| earlier <= now - Millis(r.window) && CutAt(ks, r.key, trail, earlier);
    ZRemLeaves(ks, r.key, trail, earlier, now - Millis(r.window));
  }

  function OldestOf(recent: Trail): int {
    if recent == [] then 0 else recent[0].time
  }

  /** The verdict on the recent members is the decision on the whole history. */
  lemma LogDecides(r: Request, trail: Trail, now: nat)
    requires r.Valid() && r.algorithm.SlidingWindowLog? && WholeMillis(r)
    requires Legal(r, Times(trail)) && UpToMillis(Times(trail), now) && Ordered(trail)
    ensures var recent := Recent(trail, now - Millis(r.window));
            Agrees(JudgeLog(|recent|, OldestOf(recent), now, r), r, Decide(r, Times(trail), now * MILLISECOND), now)
  {
    var cutoff := now - Millis(r.window);
    var dropped := RecentIsSuffix(trail, cutoff);
    LogPruned(r, Times(trail), now * MILLISECOND);
    PruneTimes(trail, cutoff);
    assert cutoff * MILLISECOND == now * MILLISECOND - r.window;
    var recent := Recent(trail, cutoff);
    hide Recent, Times, Legal, Agrees, JudgeLog;
    LogStep(r, StateOf(r, Times(trail)), recent, OldestOf(recent), now);
  }

  lemma LogJudge(ks: Keyspace, r: Request, trail: Trail, now: nat)
    requires r.Valid() && r.algorithm.SlidingWindowLog? && WholeMillis(r)
    requires Legal(r, Times(trail)) && UpToMillis(Times(trail), now) && LogRep(ks, r, trail, now)
    ensures CutAt(Pruned(ks, now, r), r.key, trail, now - Millis(r.window))
    ensures Agrees(Judge(Pruned(ks, now, r), now, r), r, Decide(r, Times(trail), now * MILLISECOND), now)
  {
    LegalTrail(r, trail, now);
    hide Apply, StateOf, Prune, Recent, ScoreMap, Times, Legal, Pruned, Agrees, LogRep, CutAt, JudgeLog, Decide;
    LogCut(ks, r, trail, now);
    LogPrune(ks, r, trail, now);
    LogDecides(r, trail, now);
    if Recent(trail, now - Millis(r.window)) == [] {
      NoScores(Pruned(ks, now, r), r.key);
    }
  }

  lemma NoScores(ks: Keyspace, key: string)
    ensures |Scores(ks, key)| == 0 ==> OldestScore(Scores(ks, key)) == 0
  {
  }
}
