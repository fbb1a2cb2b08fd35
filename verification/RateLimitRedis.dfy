/**
 The Redis limiter (cache/redis/rate_limit.go): the Lua script as a step over a key space, and
 the Go wrapper that validates a batch and runs the script.  Times are whole milliseconds.

 A command on a key of the wrong type is an error in Redis.  Here it reads as an empty value;
 the runs considered elsewhere never contain such a key.
 */
module RateLimitRedis {
  import opened Wrappers
  import opened RateLimitRequest
  import opened RateLimitApply
  import opened RateLimitMemory

  const MAX_BATCH := 100
  const SEQUENCE_SUFFIX := ":sequence"

  /** The sorted-set member "time:sequence". */
  datatype Member = Member(time: nat, sequence: int)

  /** The hash fields the script reads and writes. */
  datatype Hash = Hash(
    tokens: Option<real>,
    updatedAt: Option<int>,
    windowID: Option<int>,
    count: Option<int>,
    current: Option<int>,
    previous: Option<int>,
    water: Option<real>)

  const NO_FIELDS := Hash(None, None, None, None, None, None, None)

  datatype Value =
    | HashValue(hash: Hash)
    | SortedSet(scores: map<Member, int>)
    | Counter(number: int)

  datatype Entry = Entry(value: Value, deadline: Option<int>)

  type Keyspace = map<string, Entry>

  // ---------- Redis commands ----------

  function Fields(ks: Keyspace, key: string): Hash {
    if key in ks && ks[key].value.HashValue? then ks[key].value.hash else NO_FIELDS
  }

  function Or<T>(first: Option<T>, second: Option<T>): Option<T> {
    if first.Some? then first else second
  }

  function Deadline(ks: Keyspace, key: string): Option<int> {
    if key in ks then ks[key].deadline else None
  }

  /** HSET: overwrites the fields that are present in `update`. */
  function HSet(ks: Keyspace, key: string, update: Hash): Keyspace {
    var h := Fields(ks, key);
    ks[key := Entry(HashValue(Hash(Or(update.tokens, h.tokens), Or(update.updatedAt, h.updatedAt),
                                   Or(update.windowID, h.windowID), Or(update.count, h.count),
                                   Or(update.current, h.current), Or(update.previous, h.previous),
                                   Or(update.water, h.water))), Deadline(ks, key))]
  }

  function PExpire(ks: Keyspace, key: string, now: nat, ttl: int): Keyspace {
    if key in ks then ks[key := ks[key].(deadline := Some(now + ttl))] else ks
  }

  function Scores(ks: Keyspace, key: string): map<Member, int> {
    if key in ks && ks[key].value.SortedSet? then ks[key].value.scores else map[]
  }

  /** ZREMRANGEBYSCORE key -inf cutoff; a set left empty is deleted. */
  function ZRemUpTo(ks: Keyspace, key: string, cutoff: int): Keyspace {
    if key !in ks || !ks[key].value.SortedSet? then ks
    else
      var scores := ks[key].value.scores;
      var kept := map m | m in scores && scores[m] > cutoff :: scores[m];
      if kept == map[] then ks - {key} else ks[key := ks[key].(value := SortedSet(kept))]
  }

  function ZAdd(ks: Keyspace, key: string, member: Member, score: int): Keyspace {
    ks[key := Entry(SortedSet(Scores(ks, key)[member := score]), Deadline(ks, key))]
  }

  /** The lowest score of a sorted set (ZRANGE key 0 0 WITHSCORES). */
  ghost predicate IsOldest(scores: map<Member, int>, score: int) {
    && (exists m :: m in scores && scores[m] == score)
    && (forall m :: m in scores ==> score <= scores[m])
  }

  function Number(ks: Keyspace, key: string): int {
    if key in ks && ks[key].value.Counter? then ks[key].value.number else 0
  }

  function Incr(ks: Keyspace, key: string): Keyspace {
    ks[key := Entry(Counter(Number(ks, key) + 1), Deadline(ks, key))]
  }

  // ---------- the script ----------

  /** What the first loop keeps of a request for the second loop. */
  datatype Staged =
    | TokenStaged(tokens: real, now: nat, ttl: int)
    | FixedStaged(windowID: int, current: int, ttl: int)
    | SlidingStaged(windowID: int, current: int, previous: int, ttl: int)
    | LogStaged(now: nat, ttl: int)
    | LeakyStaged(water: real, now: nat, ttl: int)

  datatype Verdict = Verdict(retry: int, staged: Staged)

  function Millis(duration: int): int {
    duration / MILLISECOND
  }

  function GetOr<T>(value: Option<T>, default: T): T {
    if value.Some? then value.value else default
  }

  function RefilledMillis(fields: Hash, now: nat, r: Request): real {
    if fields.tokens.None? || fields.updatedAt.None? then r.burst as real
    else Min(r.burst as real,
             fields.tokens.value + Max(0.0, (now - fields.updatedAt.value) as real) * r.tokensPerSecond / 1000.0)
  }

  function JudgeToken(fields: Hash, now: nat, r: Request): Verdict
    requires r.Valid() && r.algorithm.TokenBucket?
  {
    var tokens := RefilledMillis(fields, now, r);
    var ttl := Ceil((r.burst as real / r.tokensPerSecond + 1.0) * 1000.0);
    if tokens < 1.0 then Verdict(Ceil((1.0 - tokens) / r.tokensPerSecond * 1000.0), TokenStaged(tokens, now, ttl))
    else Verdict(0, TokenStaged(tokens - 1.0, now, ttl))
  }

  function JudgeFixed(fields: Hash, now: nat, r: Request): Verdict
    requires r.Valid() && r.algorithm.FixedWindow?
  {
    var window := Millis(r.window);
    var windowID := now / window;
    var current := if fields.windowID != Some(windowID) then 0 else GetOr(fields.count, 0);
    if current + 1 > r.limit then Verdict(window - now % window, FixedStaged(windowID, current, window * 2))
    else Verdict(0, FixedStaged(windowID, current + 1, window * 2))
  }

  /** The counts of the two windows, rolled over as the script does it. */
  function RolledFields(fields: Hash, windowID: int): (int, int) {
    var current, previous := GetOr(fields.current, 0), GetOr(fields.previous, 0);
    if fields.windowID == Some(windowID) then (current, previous)
    else (0, if fields.windowID == Some(windowID - 1) then current else 0)
  }

  function WeightedMillis(current: int, previous: int, window: int, elapsed: int): real
    requires window > 0
  {
    current as real + previous as real * (window - elapsed) as real / window as real
  }

  function JudgeSliding(fields: Hash, now: nat, r: Request): Verdict
    requires r.Valid() && r.algorithm.SlidingWindowCounter?
  {
    var window := Millis(r.window);
    var windowID, elapsed := now / window, now % window;
    var (current, previous) := RolledFields(fields, windowID);
    if WeightedMillis(current, previous, window, elapsed) + 1.0 > r.limit as real then
      Verdict(window - elapsed + ExtraWait(current, r.limit, window), SlidingStaged(windowID, current, previous, window * 2))
    else
      Verdict(0, SlidingStaged(windowID, current + 1, previous, window * 2))
  }

  /** The log's verdict once its expired members are removed; `oldest` is the lowest remaining score. */
  function JudgeLog(count: nat, oldest: int, now: nat, r: Request): Verdict
    requires r.Valid() && r.algorithm.SlidingWindowLog?
  {
    var window := Millis(r.window);
    var retry := if count >= r.limit then oldest + window - now else 0;
    Verdict(if retry < 1 && count >= r.limit then 1 else retry, LogStaged(now, window))
  }

  function LeakedMillis(fields: Hash, now: nat, r: Request): real {
    var updated := GetOr(fields.updatedAt, now);
    Max(0.0, GetOr(fields.water, 0.0) - Max(0.0, (now - updated) as real) * r.leakRatePerSecond / 1000.0)
  }

  function JudgeLeaky(fields: Hash, now: nat, r: Request): Verdict
    requires r.Valid() && r.algorithm.LeakyBucket?
  {
    var water := LeakedMillis(fields, now, r);
    var ttl := Ceil(r.capacity as real / r.leakRatePerSecond * 1000.0) + 1000;
    if water + 1.0 > r.capacity as real
    then Verdict(Ceil((water + 1.0 - r.capacity as real) / r.leakRatePerSecond * 1000.0), LeakyStaged(water, now, ttl))
    else Verdict(0, LeakyStaged(water + 1.0, now, ttl))
  }

  /** The lowest score, or 0 for an empty set. */
  ghost function OldestScore(scores: map<Member, int>): (score: int)
    ensures scores != map[] ==> IsOldest(scores, score)
  {
    if scores == map[] then 0
    else
      OldestExists(scores.Keys, scores);
      var score :| IsOldest(scores, score);
      score
  }

  lemma {:induction false} OldestExists(keys: set<Member>, scores: map<Member, int>)
    requires keys != {} && keys <= scores.Keys
    ensures exists m :: m in keys && forall n :: n in keys ==> scores[m] <= scores[n]
    ensures keys == scores.Keys ==> exists score :: IsOldest(scores, score)
  {
    var k :| k in keys;
    if keys == {k} {
      assert forall n :: n in keys ==> scores[k] <= scores[n];
      if keys == scores.Keys { assert IsOldest(scores, scores[k]); }
    } else {
      var rest := keys - {k};
      OldestExists(rest, scores);
      var m :| m in rest && forall n :: n in rest ==> scores[m] <= scores[n];
      var least := if scores[k] < scores[m] then k else m;
      assert least in keys && forall n :: n in keys ==> scores[least] <= scores[n];
      if keys == scores.Keys { assert IsOldest(scores, scores[least]); }
    }
  }

  /** The only effect of the first loop on the stored data: a log drops its expired members. */
  function Pruned(ks: Keyspace, now: nat, r: Request): Keyspace
    requires r.Valid()
  {
    if r.algorithm.SlidingWindowLog? then ZRemUpTo(ks, r.key, now - Millis(r.window)) else ks
  }

  /** One iteration of the first loop, after pruning. */
  ghost function Judge(ks: Keyspace, now: nat, r: Request): Verdict
    requires r.Valid()
  {
    match r.algorithm
    case TokenBucket => JudgeToken(Fields(ks, r.key), now, r)
    case FixedWindow => JudgeFixed(Fields(ks, r.key), now, r)
    case SlidingWindowCounter => JudgeSliding(Fields(ks, r.key), now, r)
    case SlidingWindowLog => JudgeLog(|Scores(ks, r.key)|, OldestScore(Scores(ks, r.key)), now, r)
    case LeakyBucket => JudgeLeaky(Fields(ks, r.key), now, r)
  }

  datatype FirstLoop = FirstLoop(ks: Keyspace, staged: seq<Staged>, maxRetry: int)

  ghost function JudgeAll(ks: Keyspace, now: nat, requests: seq<Request>): (loop: FirstLoop)
    requires AllValid(requests)
    ensures |loop.staged| == |requests| && loop.maxRetry >= 0
  {
    if requests == [] then FirstLoop(ks, [], 0)
    else
      var before := JudgeAll(ks, now, requests[..|requests| - 1]);
      var r := requests[|requests| - 1];
      var pruned := Pruned(before.ks, now, r);
      var verdict := Judge(pruned, now, r);
      FirstLoop(pruned, before.staged + [verdict.staged],
                if verdict.retry > before.maxRetry then verdict.retry else before.maxRetry)
  }

  /** One iteration of the second loop. */
  function WriteBack(ks: Keyspace, now: nat, r: Request, staged: Staged): Keyspace {
    match staged
    case TokenStaged(tokens, at, ttl) =>
      PExpire(HSet(ks, r.key, NO_FIELDS.(tokens := Some(tokens), updatedAt := Some(at))), r.key, now, ttl)
    case FixedStaged(windowID, current, ttl) =>
      PExpire(HSet(ks, r.key, NO_FIELDS.(windowID := Some(windowID), count := Some(current))), r.key, now, ttl)
    case SlidingStaged(windowID, current, previous, ttl) =>
      PExpire(HSet(ks, r.key, NO_FIELDS.(windowID := Some(windowID), current := Some(current), previous := Some(previous))),
              r.key, now, ttl)
    case LogStaged(at, ttl) =>
      var counterKey := r.key + SEQUENCE_SUFFIX;
      var counted := Incr(ks, counterKey);
      var added := ZAdd(counted, r.key, Member(at, Number(counted, counterKey)), at);
      PExpire(PExpire(added, r.key, now, ttl), counterKey, now, ttl * 2)
    case LeakyStaged(water, at, ttl) =>
      PExpire(HSet(ks, r.key, NO_FIELDS.(water := Some(water), updatedAt := Some(at))), r.key, now, ttl)
  }

  function WriteAll(ks: Keyspace, now: nat, requests: seq<Request>, staged: seq<Staged>): Keyspace
    requires |requests| == |staged|
  {
    if requests == [] then ks
    else
      var last := |requests| - 1;
      WriteBack(WriteAll(ks, now, requests[..last], staged[..last]), now, requests[last], staged[last])
  }

  /** The whole script: denial is signalled only by a positive largest delay. */
  ghost function Script(ks: Keyspace, now: nat, requests: seq<Request>): (Keyspace, Outcome)
    requires AllValid(requests)
  {
    var loop := JudgeAll(ks, now, requests);
    if loop.maxRetry > 0 then (loop.ks, Outcome(false, loop.maxRetry * MILLISECOND, None))
    else (WriteAll(loop.ks, now, requests, loop.staged), Outcome(true, 0, None))
  }

  /** The wrapper: batch size, validation and duplicate keys are checked before the script runs. */
  ghost function TakeRedis(ks: Keyspace, now: nat, requests: seq<Request>): (Keyspace, Outcome) {
    if requests == [] then (ks, Outcome(true, 0, None))
    else if |requests| > MAX_BATCH then (ks, Outcome(false, 0, Some(TooManyRequests)))
    else if FirstError(requests).Some? then (ks, Outcome(false, 0, FirstError(requests)))
    else
      FirstErrorMeaning(requests);
      Script(ks, now, requests)
  }

  class Redis {
    var keyspace: Keyspace

    constructor ()
      ensures keyspace == map[]
    {
      keyspace := map[];
    }

    /** ZRANGE key 0 0 WITHSCORES on a non-empty set. */
    method Oldest(scores: map<Member, int>) returns (score: int)
      requires scores != map[]
      ensures score == OldestScore(scores)
    {
      var pending := scores.Keys;
      var first :| first in pending;
      score := scores[first];
      pending := pending - {first};
      ghost var holder := first;
      while pending != {}
        invariant pending <= scores.Keys
        invariant holder in scores && scores[holder] == score
        invariant forall m :: m in scores && m !in pending ==> score <= scores[m]
      {
        var m :| m in pending;
        pending := pending - {m};
        if scores[m] < score {
          score, holder := scores[m], m;
        }
      }
      assert IsOldest(scores, score);
    }

    method JudgeOne(now: nat, r: Request) returns (verdict: Verdict)
      requires r.Valid()
      ensures verdict == Judge(keyspace, now, r)
    {
      match r.algorithm
      case TokenBucket => verdict := JudgeToken(Fields(keyspace, r.key), now, r);
      case FixedWindow => verdict := JudgeFixed(Fields(keyspace, r.key), now, r);
      case SlidingWindowCounter => verdict := JudgeSliding(Fields(keyspace, r.key), now, r);
      case SlidingWindowLog =>
        var scores := Scores(keyspace, r.key);
        var oldest := 0;
        if scores != map[] {
          oldest := Oldest(scores);
        }
        verdict := JudgeLog(|scores|, oldest, now, r);
      case LeakyBucket => verdict := JudgeLeaky(Fields(keyspace, r.key), now, r);
    }

    /** The script's first loop. */
    method JudgeBatch(now: nat, requests: seq<Request>) returns (staged: seq<Staged>, maxRetry: int)
      requires AllValid(requests)
      modifies this
      ensures FirstLoop(keyspace, staged, maxRetry) == JudgeAll(old(keyspace), now, requests)
    {
      hide Judge, ZRemUpTo, Request.Validate;
      staged, maxRetry := [], 0;
      var i := 0;
      while i < |requests|
        invariant 0 <= i <= |requests|
        invariant FirstLoop(keyspace, staged, maxRetry) == JudgeAll(old(keyspace), now, requests[..i])
      {
        var r := requests[i];
        assert requests[..i + 1][..i] == requests[..i] && requests[..i + 1][i] == r;
        if r.algorithm.SlidingWindowLog? {
          keyspace := ZRemUpTo(keyspace, r.key, now - Millis(r.window));
        }
        var verdict := JudgeOne(now, r);
        staged := staged + [verdict.staged];
        if verdict.retry > maxRetry {
          maxRetry := verdict.retry;
        }
        i := i + 1;
      }
      assert requests[..i] == requests;
    }

    /** The script's second loop. */
    method WriteBatch(now: nat, requests: seq<Request>, staged: seq<Staged>)
      requires |staged| == |requests|
      modifies this
      ensures keyspace == WriteAll(old(keyspace), now, requests, staged)
    {
      hide WriteBack;
      var i := 0;
      while i < |requests|
        invariant 0 <= i <= |requests|
        invariant keyspace == WriteAll(old(keyspace), now, requests[..i], staged[..i])
      {
        assert requests[..i + 1][..i] == requests[..i] && staged[..i + 1][..i] == staged[..i];
        keyspace := WriteBack(keyspace, now, requests[i], staged[i]);
        i := i + 1;
      }
      assert requests[..i] == requests && staged[..i] == staged;
    }

    method RunScript(now: nat, requests: seq<Request>) returns (outcome: Outcome)
      requires AllValid(requests)
      modifies this
      ensures (keyspace, outcome) == Script(old(keyspace), now, requests)
    {
      hide JudgeAll, WriteAll;
      var staged, maxRetry := JudgeBatch(now, requests);
      if maxRetry > 0 {
        return Outcome(false, maxRetry * MILLISECOND, None);
      }
      WriteBatch(now, requests, staged);
      return Outcome(true, 0, None);
    }

    method TakeRateLimits(now: nat, requests: seq<Request>) returns (outcome: Outcome)
      modifies this
      ensures (keyspace, outcome) == TakeRedis(old(keyspace), now, requests)
    {
      if |requests| == 0 {
        return Outcome(true, 0, None);
      }
      if |requests| > MAX_BATCH {
        return Outcome(false, 0, Some(TooManyRequests));
      }
      var seen: set<string> := {};
      var i := 0;
      while i < |requests|
        invariant 0 <= i <= |requests|
        invariant seen == Keys(requests[..i])
        invariant AllValid(requests[..i]) && FirstError(requests[..i]).None?
        invariant keyspace == old(keyspace)
      {
        hide Evaluate;
        var request := requests[i];
        PrefixStep(map[], now, requests, i);
        if request.Validate().Some? {
          FirstErrorOfPrefix(requests, i + 1);
          return Outcome(false, 0, request.Validate());
        }
        if request.key in seen {
          FirstErrorOfPrefix(requests, i + 1);
          return Outcome(false, 0, Some(DuplicateKey(request.key)));
        }
        seen := seen + {request.key};
        i := i + 1;
      }
      assert requests[..i] == requests;
      outcome := RunScript(now, requests);
    }
  }
}
