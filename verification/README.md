# Models and proofs for kratos-kit

A Dafny project that models the parts of kratos-kit where the logic is hardest and proves what they promise.
`dafny verify dfyconfig.toml` checks all of it.

**Rate limiting** (`RateLimit*.dfy`). The five algorithms of `cache/memory/rate_limit.go` as functions of a key's state,
and the batch operation as a class over the stored maps. `RateLimitHistory` defines a limiter that never forgets: it
decides by replaying every admission of a key. All limits, exactness laws and delays are proved on those histories, and
`RateLimitRuns` shows that the real limiter, with expiry and sweeping, cannot be told apart from it. `RateLimitRedis` is
the Lua script of `cache/redis/rate_limit.go`, command by command; `RateLimitVerdicts`, `RateLimitAgreement` and
`RateLimitAgreementRuns` prove that both implementations agree call by call, and `RateLimitValidity` says in numbers
which batches they refuse undecided. Two promises come with a reservation. Every delay is sufficient, but the sliding
counter's can be longer than needed; `RateLimitTightness` says exactly when. The script rounds delays up to whole
milliseconds where the Go code does not.

**Keyed lock** (`KeyedLockProtocol.dfy`, `KeyedLock.dfy`). `locker/memory/memory.go` as interleaved atomic steps with an
invariant, and the locker as objects on the heap whose methods perform those steps.

**Sessions** (`MemoryCache.dfy`, `SessionTokens.dfy`, `UserTokens.dfy`, `SessionRuns.dfy`, `SessionProtocol.dfy`,
`SessionOverlap.dfy`, `SessionMarkers.dfy`, `SessionInterleavedRuns.dfy`, `SessionValidations.dfy`,
`SessionCallsAlone.dfy`). The token manager of `auth/data/user_token.go` over the in-process cache: as a class, over
whole runs of its calls, and as interleaved cache operations. Over every run, with any lifetimes, the cache answers each
validation as a ledger of what was issued and revoked would, rotation grace included; and a concurrent refresh never
revives a revoked session. Interleaved at will, a validation accepts only a token it has found good for that user and
kind, and accepts one that stays good; alone, it answers what the cache says (`SessionValidations`), and the steps of
any other call, run alone, do what the whole call does (`SessionCallsAlone`). What does not hold under interleaving is
that a new token stays usable. A rotation that read the record before another one saved it drops that one's token:
`RotationSurvives` says exactly when, and `OverlapLosesAToken` shows a run. Without any overlap the marker can still die
before the newest tokens: `LateExtensionLosesAToken` shows a rotation whose late extension takes the marker back to the
deadline of its own record. `MarkerLaw` says for every interleaving when the marker is alive, and `InterleavedGrace` is
the exact law for all interleavings without an overlap. The marker outlives the newest tokens if the call that saved
last also set it last (`SettledGrace`), as it has when extensions come in the order of the saves (`InTurnSettles`). A
validation reads the clock twice: a token stored for the user alone that expires in between still counts if the user has
any unexpired token of its kind. `ValidatedLaw` states when that happens, and `ExpiredTokenCounts` shows a run.

**Recursion detection** (`RecursiveMessages.dfy`), **import edits** (`ApplyEdits.dfy`, `UniqueNames.dfy`), **configuration
merge** (`ConfigMerge.dfy`) and **secret messages** (`SecretMessages.dfy`): algorithms on graphs, texts and trees, each as
the loop the program runs and an independent definition of its result.

**Secret markers** (`SecretMarkers.dfy`, `SecretMarkerLaws.dfy`). The `ENC(...)`/`ENC[...]` rewriter of `config/secret.go`.
An empty or already encrypted part is copied, so it can join the plain text on both sides into a new marker or token.
The round trip and the stability of encryption are therefore stated with their exact conditions, which ordinary text meets.

**Masked columns** (`Redaction.dfy`, `RedactStorage.dfy`). Masking and the side table of encrypted originals. Restoring
does not always give what was submitted last: a value that the rule leaves alone does not remove the original of an
earlier one. The exact condition is proved.

Time is a number of nanoseconds (milliseconds in the script) read once by each operation. Where the order of a Go map
matters to nobody, loops take the keys in any order. A call's failures that come from outside (random source, signer,
cache, store, network) are left out or are parameters. Cryptography enters as functions with the laws named `Lawful` in
`SecretMarkers` and `RedactStorage`: opening undoes sealing, what opens is longer than its plaintext (`SecretMarkers`), only
what was sealed for the same place opens and different values have different digests (`RedactStorage`). A lemma
`LawfulExists` beside each shows that the laws can be met.

## Model

| member | source | states |
|---|---|---|
| `RateLimitApply.Ceil` | cache/memory/rate_limit.go:98 | the rounding used for every delay and lifetime: the least whole number not below its argument |
| `RateLimitHistory.LegalIsSorted` | cache/memory/rate_limit.go:34-87 | the admissions of a key form a history in time order |
| `RateLimitBuckets.TokenShape` | cache/memory/rate_limit.go:91-103 | in every reachable state a token bucket holds between 0 and burst - 1 tokens right after an admission, stamped with that admission's time, and nothing else |
| `RateLimitBuckets.LeakyShape` | cache/memory/rate_limit.go:152-162 | in every reachable state a leaky bucket holds between 1 and capacity right after an admission |
| `RateLimitBuckets.DualStep` | cache/memory/rate_limit.go:91-162 | one step of the bisimulation: with equal size and rate and water = burst - tokens, both buckets decide alike, ask for the same delay, stay related and live equally long |
| `RateLimitBuckets.TokenAndLeakyAgree` | cache/memory/rate_limit.go:91-162 | on every admission history leaky bucket and token bucket are the same machine: the same histories are possible, with equal decisions and delays at every later time |
| `RateLimitBuckets.TokenBudget` | cache/memory/rate_limit.go:91-103 | tokens left plus admissions since any earlier time never exceed burst plus what the interval supplied |
| `RateLimitBuckets.TokenAdmissionBound` | cache/memory/rate_limit.go:91-103 | no interval of any run admits more than burst + rate times its length |
| `RateLimitBuckets.LeakyAdmissionBound` | cache/memory/rate_limit.go:152-162 | the same bound for the leaky bucket, obtained through the bisimulation |
| `RateLimitBuckets.TokenExact` | cache/memory/rate_limit.go:91-103 | for every legal history a request is admitted if and only if admitting it breaks no bound of burst plus rate times length on an interval that starts at an earlier admission; a new bucket admits `burst` requests at once |
| `RateLimitBuckets.LeakyExact` | cache/memory/rate_limit.go:152-162 | the same for the leaky bucket and its capacity |
| `RateLimitWindows.AlignedCountIsInterval` | cache/memory/rate_limit.go:105 | the aligned window number id is the time interval [id * window, (id + 1) * window) |
| `RateLimitWindows.FixedShape` | cache/memory/rate_limit.go:104-113 | in every reachable state the fixed window's counter is the number of admissions of its aligned window |
| `RateLimitWindows.FixedWindowLimit` | cache/memory/rate_limit.go:104-113 | no aligned window of any run admits more than the limit |
| `RateLimitWindows.FixedWindowExact` | cache/memory/rate_limit.go:104-113 | admitted if and only if fewer than limit earlier admissions lie in the aligned window |
| `RateLimitWindows.SlidingShape` | cache/memory/rate_limit.go:114-138 | in every reachable state the sliding counter's two counts are the admissions of the window last used and of the one before it |
| `RateLimitWindows.SlidingRollOver` | cache/memory/rate_limit.go:116-125 | after roll-over at any later time the two counts are the true counts of the current aligned window and its predecessor |
| `RateLimitWindows.SlidingCounterLimit` | cache/memory/rate_limit.go:114-138 | no aligned window of any run admits more than the limit |
| `RateLimitWindows.SlidingCounterExact` | cache/memory/rate_limit.go:126-138 | the weighted estimate that decides a request is computed from true counts of the history |
| `RateLimitWindows.SlidingCounterInNumbers` | cache/memory/rate_limit.go:114-137 | the same decision in whole numbers: the current window's count times the window, plus the previous one's times the time left in the window, plus one window, is at most limit times window |
| `RateLimitWindows.FixedIntervalLimit` | cache/memory/rate_limit.go:104-113 | no interval of one window's length, aligned or not, admits more than twice the limit |
| `RateLimitWindows.SlidingCounterAtAdmission` | cache/memory/rate_limit.go:126-138 | at every admission the interval of one window's length ending there holds at most the limit plus the part of the previous count that the weight leaves out |
| `RateLimitWindows.SlidingIntervalLimit` | cache/memory/rate_limit.go:114-138 | no interval of one window's length, aligned or not, admits twice the limit |
| `RateLimitWindows.LogShape` | cache/memory/rate_limit.go:139-151 | the stored events are the admission history cut one window before the newest admission |
| `RateLimitWindows.LogPruned` | cache/memory/rate_limit.go:140-145 | pruning stored events and pruning the whole history leave the same events |
| `RateLimitWindows.SlidingLogExact` | cache/memory/rate_limit.go:139-151 | admitted if and only if fewer than limit requests of the full history lie in (now - window, now] |
| `RateLimitWindows.SlidingLogLimit` | cache/memory/rate_limit.go:139-151 | no interval (t - window, t] of any run holds more than limit admissions |
| `RateLimitLaws.EvictionHarmless` | cache/memory/rate_limit.go:168-181 | once a state's lifetime is over it decides, and moves on, exactly like no state at all, for all five algorithms |
| `RateLimitLaws.RetryOfDecision` | cache/memory/rate_limit.go:89-166 | a delay is positive exactly when the request is denied |
| `RateLimitLaws.RetrySuffices` | cache/memory/rate_limit.go:89-192 | a request denied with delay d and not admitted in between is admitted at every time from now + d on, for all five algorithms |
| `RateLimitTightness.RetryTightExactly` | cache/memory/rate_limit.go:97-159 | a denial's delay is not a millisecond too long, in that the request stays denied until then: always for four algorithms, and for the sliding counter if and only if the condition on the counts holds |
| `RateLimitTightness.SlidingTightExactly` | cache/memory/rate_limit.go:126-134 | the sliding counter's delay is tight if and only if its window is full or one short of it, or the boundary is less than a millisecond away, or the weighted count would still be too much a millisecond before the boundary |
| `RateLimitTightness.SlidingRetryIsLoose` | cache/memory/rate_limit.go:128-134 | an input on which that condition fails: a valid sliding counter that advises 10 ms where 5 ms is enough |
| `RateLimitLaws.SlidingDelay` | cache/memory/rate_limit.go:128-134 | a denial of the sliding counter waits for the window boundary, and beyond it when the window itself is full |
| `RateLimitLaws.TTLFits` | cache/memory/rate_limit.go:168-181 | every lifetime that validated parameters allow is a positive 64-bit duration |
| `RateLimitMemory.FirstErrorMeaning` | cache/memory/rate_limit.go:56-63 | a batch has no error exactly when all its requests are valid and their keys differ |
| `RateLimitMemory.Memory.Sweep` | cache/memory/rate_limit.go:44-51 | the periodic sweep deletes exactly the states whose lifetime is over |
| `RateLimitMemory.Memory.Judge` | cache/memory/rate_limit.go:52-79 | the loop reports the first error in request order, or else the batch's verdict and the staged states, changing nothing stored |
| `RateLimitMemory.Memory.Commit` | cache/memory/rate_limit.go:83-85 | an admitted batch writes exactly the staged states |
| `RateLimitMemory.Memory.TakeRateLimits` | cache/memory/rate_limit.go:34-87 | the whole operation on the stored maps equals the batch function the run theorems are about |
| `RateLimitValidity.MemoryRefuses` | cache/memory/rate_limit.go:52-66 | on any store a batch is refused with an error if and only if some request has an empty key, a parameter of its own algorithm out of bounds, or the key of an earlier one; the error is that of the first such request, and nothing is stored |
| `RateLimitValidity.MemoryAdmitsNew` | cache/memory/rate_limit.go:34-87 | every well-formed batch on an empty store is admitted |
| `RateLimitValidity.AloneOnEmpty` | cache/store/rate_limit.go:81-114 | for each algorithm, with its bounds as numbers: a request alone on an empty store is admitted if its own parameters are within them, whatever its other fields hold, and otherwise refused with that algorithm's error |
| `RateLimitRuns.NoStaleStates` | cache/memory/rate_limit.go:41-51 | over every run, after a call with requests no state is stored that expired more than a minute before |
| `RateLimitRuns.TakeSimulates` | cache/memory/rate_limit.go:34-87 | one batch, in any state of any run: the limiter that expires and sweeps gives the same outcome as one that keeps the whole history, and they stay related |
| `RateLimitRuns.EvictionUnobservable` | cache/memory/rate_limit.go:44-87 | over every run with fixed parameters and a clock that does not go back, lazy expiry and sweeping change no decision, delay or error |
| `RateLimitRuns.RunAdmissionsLegal` | cache/memory/rate_limit.go:34-87 | what callers of the real limiter saw admitted for a key is a history the algorithm allows |
| `RateLimitRuns.RunBounds` | cache/memory/rate_limit.go:34-192 | the promised limit of each of the five algorithms, on the admissions callers saw in any run |
| `RateLimitBatches.EvaluateMeaning` | cache/memory/rate_limit.go:56-79 | the loop without the loop: denied if some request is, the delay is the largest one asked for, and there is one staged state per admitted request |
| `RateLimitBatches.AllOrNothing` | cache/store/rate_limit.go:74-106 | a batch is admitted if and only if it is well formed and each of its requests alone would be |
| `RateLimitBatches.DenialChangesNothing` | cache/memory/rate_limit.go:80-82 | a denied or erroneous batch changes no unexpired state and adds none |
| `RateLimitBatches.OrderIndependent` | cache/memory/rate_limit.go:34-87 | permuting a batch changes neither the decision, the delay nor the resulting state |
| `RateLimitBatches.RetryHonoured` | cache/memory/rate_limit.go:69-82 | in any run, a batch denied with delay d and presented again at or after now + d, with no admission of its keys in between, is admitted: the largest delay of a mixed batch suffices |
| `RateLimitRedis.Redis.Oldest` | cache/redis/rate_limit.go:83 | the lowest score of the log |
| `RateLimitRedis.Redis.JudgeBatch` | cache/redis/rate_limit.go:20-103 | the script's first loop: staged states, largest delay, and logs pruned even if the batch will be denied |
| `RateLimitRedis.Redis.WriteBatch` | cache/redis/rate_limit.go:105-126 | the script's second loop writes every staged state with its expiry |
| `RateLimitRedis.Redis.RunScript` | cache/redis/rate_limit.go:14-128 | the whole script, with denial signalled by a positive largest delay only |
| `RateLimitRedis.Redis.TakeRateLimits` | cache/redis/rate_limit.go:144-201 | the wrapper: batch size, validation and duplicate keys are refused before the script runs |
| `RateLimitValidity.RedisRefuses` | cache/redis/rate_limit.go:148-171 | more than 100 requests are refused at once; up to 100, the wrapper refuses exactly what the in-process limiter refuses, with the same error and before the script runs |
| `RateLimitValidity.RedisAdmitsNew` | cache/redis/rate_limit.go:14-201 | every well-formed batch of up to 100 requests on an empty key space is admitted |
| `RateLimitVerdicts.TTLMatches` | cache/redis/rate_limit.go:45-97 | the script's key expiry is the in-process lifetime in milliseconds |
| `RateLimitVerdicts.TokenVerdict` | cache/redis/rate_limit.go:31-45 | from the hash that represents a history, the script's token bucket decides like the Go one, stages its next state and rounds its delay up to milliseconds |
| `RateLimitVerdicts.LeakyVerdict` | cache/redis/rate_limit.go:87-97 | the same for the leaky bucket |
| `RateLimitVerdicts.FixedVerdict` | cache/redis/rate_limit.go:46-57 | the same for the fixed window |
| `RateLimitVerdicts.SlidingVerdict` | cache/redis/rate_limit.go:58-78 | the same for the sliding counter |
| `RateLimitAgreement.LogPrune` | cache/redis/rate_limit.go:79-85 | pruning the sorted set leaves exactly the recent admissions, correctly counted and with the oldest one first |
| `RateLimitAgreement.LogJudge` | cache/redis/rate_limit.go:79-101 | the same agreement for the log, pruned in the middle of judging |
| `RateLimitAgreementRuns.NewMemberDistinct` | cache/redis/rate_limit.go:118-121 | two admissions in one millisecond never share a sorted-set member: the sequence key outlives the log |
| `RateLimitAgreementRuns.JudgeAllAgrees` | cache/redis/rate_limit.go:20-104 | over a whole batch, the first loop computes the Go limiter's decision and largest delay, and its pruning changes no key's meaning |
| `RateLimitAgreementRuns.WriteAllKeeps` | cache/redis/rate_limit.go:105-126 | the second loop records the admission of every key and of no other |
| `RateLimitAgreementRuns.EvictKeeps` | cache/redis/rate_limit.go:110-124 | Redis dropping any set of keys past their deadlines changes no key's meaning |
| `RateLimitAgreementRuns.ImplementationsAgree` | cache/redis/rate_limit.go:14-201 | over every run on a whole-millisecond clock with whole-millisecond windows, batches of at most 100 and keys apart from sequence keys, the script and the Go limiter give equal decisions and errors call by call, the script's delay being Go's rounded up, whatever Redis expires when |
| `KeyedLockProtocol.NextKeepsInv` | locker/memory/memory.go:49-77 | every atomic step keeps the invariant: unfinished calls find their own entry in the map, counts equal users, a full channel has exactly one holder |
| `KeyedLockProtocol.EveryInterleaving` | locker/memory/memory.go:49-77 | in every state of every interleaving: at most one lease per key, exact reference counts, entries never orphaned, the map holds exactly the keys in use, the release's receive never blocks, a try fails only while the key is held, and the map is empty once all calls are done |
| `KeyedLockProtocol.TryOutcome` | locker/memory/memory.go:57-77 | a try that nothing interrupts fails exactly if the key is held |
| `KeyedLockProtocol.ReleaseOutcome` | locker/memory/memory.go:59-68 | a release that nothing interrupts empties the channel and finishes its call |
| `KeyedLock.Locker.RegisterCall` | locker/memory/memory.go:49-56 | the first critical section performs the protocol's register step on the heap |
| `KeyedLock.Locker.TrySendTo` | locker/memory/memory.go:57-59 | the non-blocking send performs the protocol's try step |
| `KeyedLock.Locker.ReceiveFrom` | locker/memory/memory.go:60 | the receive performs its step, and needs nothing but a live lease not to block |
| `KeyedLock.Locker.DropReference` | locker/memory/memory.go:61-75 | the last critical section, of release and of failure, performs the protocol's drop step |
| `KeyedLock.Locker.Acquire` | locker/memory/memory.go:36-78 | alone, a call gets a lease exactly if no other call holds the key; an empty key or a finished context changes nothing |
| `KeyedLock.Locker.Release` | locker/memory/memory.go:90-93 | a release finishes its call and empties the channel, and a second one does nothing |
| `MemoryCache.Memory.Set` | cache/memory/memory.go:153-168 | the key then holds the value and is alive exactly until now + lifetime, for good if the lifetime is not positive; nothing else changes |
| `MemoryCache.Memory.Get` | cache/memory/memory.go:93-106 | the value of a live string; a dead one is deleted |
| `MemoryCache.Memory.Del` | cache/memory/memory.go:170-176 | the key is never alive again until it is set; nothing else changes |
| `MemoryCache.Memory.Expire` | cache/memory/memory.go:178-191 | a key that is stored keeps its value and is alive exactly until the new deadline, even if it was past its old one; a missing one is an error and is not created; nothing else changes |
| `MemoryCache.Memory.Exists` | cache/memory/memory.go:193-207 | whether the string is alive; a dead one is deleted |
| `MemoryCache.Memory.HGetAll` | cache/memory/memory.go:209-222 | the fields of a hash that has not expired |
| `MemoryCache.Memory.HGet` | cache/memory/memory.go:224-242 | one field of a hash that has not expired |
| `MemoryCache.Memory.HSet` | cache/memory/memory.go:244-266 | only this field changes; an expired hash starts anew without a deadline |
| `MemoryCache.Memory.HDel` | cache/memory/memory.go:268-285 | only this field is gone |
| `SessionRuns.Perform` | auth/data/user_token.go:71-240 | the methods of the token manager have the effects on the cache that the run theorems are about |
| `SessionRuns.EffectKeeps` | auth/data/user_token.go:71-240 | whatever the configured lifetimes, every call keeps the cache in step with a ledger of what was issued and revoked: markers live exactly as long as the tokens they guard, or for good if those are expired when issued, and records hold the newest tokens |
| `SessionRuns.RunLaw` | auth/data/user_token.go:71-240 | over every run of logins, rotations, revocations, listings and validations of any users and sessions, a token validates at any later time if and only if the ledger grants it |
| `SessionRuns.RotationGrace` | auth/data/user_token.go:99-128 | over every such run a token issued to a session validates if and only if the session is in force and the token is its newest access token, that one's predecessor before the earlier of its own expiry and rotation time plus one minute, or its newest refresh token |
| `SessionRuns.GraceInNumbers` | auth/data/user_token.go:99-128 | after a login and an access rotation the old access token validates for exactly one more minute (60000000000 ns) but not beyond its own expiry, the new one and the refresh token for their own lives, and none as a token of the other kind |
| `SessionRuns.ValidatedLaw` | auth/data/user_token.go:197-275 | in every reachable cache a validation that reads the clock twice answers as at the later reading, except exactly when the token was stored for the user, expired between the two and some session still has an unexpired token of its kind; then it answers as at the earlier one |
| `SessionRuns.ExpiredTokenCounts` | auth/data/user_token.go:197-275 | a run after which a validation reading the clock at 10 and 20 accepts a token that expired at 15 |
| `SessionRuns.OthersChangeNothing` | auth/data/user_token.go:418-427 | in every run a session's tokens validate as if only the calls about that session had been made |
| `SessionOverlap.RotationSurvives` | auth/data/user_token.go:99-159 | in every interleaving, the token a rotation saved validates after the session's next rotation, for as long as it should, if and only if that rotation read the record after the first one saved it; if it had read before, the token never validates again |
| `SessionOverlap.OverlapLosesAToken` | auth/data/user_token.go:99-128 | an interleaving of a login and two rotations after which a token just issued is lost, although the session is alive |
| `SessionMarkers.MarkerLaw` | auth/data/user_token.go:71-190 | in every interleaving a marker is there from a login until a revocation or a look at it past its deadline, its deadline is that of the last login or extension, and the stored record is the last one saved; if the call that saved it also set the marker last, the marker lasts exactly until the later of the record's two expiries, or for good |
| `SessionMarkers.InTurnSettles` | auth/data/user_token.go:99-159 | if only the call that saved last ever extends the marker, and no login saves after another call has set it, then once no call is under way the call that saved last has set the marker last |
| `SessionInterleavedRuns.InterleavedGrace` | auth/data/user_token.go:71-240 | in every interleaving in which no rotation of the session overlaps another, its tokens validate if and only if the marker is there and before its deadline, the record is stored and the saves grant the token, all of it read off the steps |
| `SessionInterleavedRuns.SettledGrace` | auth/data/user_token.go:99-159 | if moreover the call that saved last has also set the marker last, then while marker and record are there the saves alone decide: the marker outlives every token of the session |
| `SessionInterleavedRuns.LateExtensionLosesAToken` | auth/data/user_token.go:99-159 | an interleaving without overlap in which a refresh token granted until 220 stops validating at 200, because an earlier rotation extends the marker late |
| `SessionTokens.Predecessor` | auth/data/user_token.go:99-128 | the record keeps the rotated access token for at most one more minute, and keeps the predecessor it had if that token is missing or unchanged |
| `SessionTokens.LoginObserved` | auth/data/user_token.go:71-91 | after a login its tokens validate until they expire, and every other session is as it was |
| `SessionTokens.RotationKeepsOthers` | auth/data/user_token.go:418-427 | rotating one session changes no other session of any user |
| `SessionTokens.RevocationKeepsOthers` | auth/data/user_token.go:176-190 | revoking one session removes exactly that session |
| `SessionTokens.CleanedSame` | auth/data/user_token.go:402-408 | cleaning dead entries out of the index is unobservable from then on |
| `SessionTokens.CleanedOneMore` | auth/data/user_token.go:402-408 | one turn of the clean-up loop in terms of the cache operations it runs |
| `UserTokens.UserToken.GenerateTokenForSession` | auth/data/user_token.go:71-91 | after a login both tokens validate until they expire and no other session is different; it fails exactly if the signer does |
| `UserTokens.UserToken.GetTokenSession` | auth/data/user_token.go:377-388 | the record is found exactly if its marker is alive, and asking is unobservable |
| `UserTokens.UserToken.GenerateAccessTokenForSession` | auth/data/user_token.go:99-128 | a rotation succeeds exactly on a live session, saves the rotated record and only extends an existing marker; a failed one is unobservable |
| `UserTokens.UserToken.GenerateRefreshTokenForSession` | auth/data/user_token.go:136-159 | the same for the refresh token |
| `UserTokens.UserToken.RemoveTokenForSession` | auth/data/user_token.go:176-190 | the marker and the record of this session are gone; without a session ID, everything of the user |
| `UserTokens.UserToken.GetTokenSessions` | auth/data/user_token.go:391-416 | exactly the sessions whose marker is alive, with all dead entries removed from the index |
| `UserTokens.UserToken.RemoveToken` | auth/data/user_token.go:162-173 | afterwards no access or refresh token of the user validates, at any time |
| `UserTokens.UserToken.IsTokenValid` | auth/data/user_token.go:197-240 | when no time passes inside the call: valid exactly if stored for the user or accepted by a live session; when time passes between its looks, a stored token that expires meanwhile counts as long as the user has any unexpired token of the kind |
| `UserTokens.UserToken.IsExistToken` | auth/data/user_token.go:253-284 | whether the user's own key or some live session has an unexpired token of the kind |
| `UserTokens.UserToken.IsAccessTokenValid` | auth/data/user_token.go:198-220 | that answer for access tokens, the current and the graced one of each session; asking is unobservable |
| `UserTokens.UserToken.IsRefreshTokenValid` | auth/data/user_token.go:223-240 | that answer for refresh tokens; asking is unobservable |
| `SessionProtocol.NextKeepsOwn` | auth/data/user_token.go:71-240 | under every interleaving, records and calls only ever hold tokens issued to their own session |
| `SessionProtocol.RunKeepsRevoked` | auth/data/user_token.go:377-427 | once a marker is gone and the ID is not issued again, it stays gone and no call started later learns of the session |
| `SessionProtocol.RevocationIsFinal` | auth/data/user_token.go:99-190 | under every interleaving, no validation started after the marker was deleted accepts a token of that session and no listing shows it, even if a rotation in flight writes the index entry back |
| `SessionValidations.AcceptedWasGood` | auth/data/user_token.go:198-240 | under every interleaving a token is accepted only for the user and kind it was presented for, and only if during the validation it was stored for the user and alive, or was accepted by a record the validation had read and whose marker it then found alive |
| `SessionValidations.GoodIsAccepted` | auth/data/user_token.go:198-240 | under every interleaving a validation at all of whose steps some session is live with a record that keeps accepting the token ends by accepting it |
| `SessionValidations.ValidatedAlone` | auth/data/user_token.go:198-240 | a validation that nothing interrupts accepts exactly the tokens that are valid in the cache |
| `SessionValidations.ValidationEnds` | auth/data/user_token.go:198-240 | from every state with the index free a validation can run to its end alone, with that answer |
| `SessionValidations.ListedWasLive` | auth/data/user_token.go:391-416 | under every interleaving a listing shows only sessions whose record it had read and whose marker it then found alive |
| `SessionValidations.ListedAlone` | auth/data/user_token.go:391-416 | a listing that nothing interrupts shows exactly the live sessions |
| `SessionCallsAlone.LoginAlone` | auth/data/user_token.go:71-91 | the steps of a login, run without interruption, do to the cache what the whole call does |
| `SessionCallsAlone.RotateAlone` | auth/data/user_token.go:99-159 | the same for a rotation, whether it succeeds or not |
| `SessionCallsAlone.RevokeAlone` | auth/data/user_token.go:176-190 | the same for a revocation |
| `RecursiveMessages.PathStaysInside` | cmd/protoc-gen-go-agent-tool/agent_tool.go:205-207 | no reference leads out of the finished messages |
| `RecursiveMessages.FinishOne` | cmd/protoc-gen-go-agent-tool/agent_tool.go:220-221 | a message whose references are all finished, and that is not finished itself, lies before no cycle |
| `RecursiveMessages.Search.InFields` | cmd/protoc-gen-go-agent-tool/agent_tool.go:211-218 | the loop over fields either finds a cycle or finishes every message referred to |
| `RecursiveMessages.Search.InStack` | cmd/protoc-gen-go-agent-tool/agent_tool.go:197-222 | the search ends on every graph, is right on both answers, and restores the stack on each return |
| `RecursiveMessages.HasRecursiveReference` | cmd/protoc-gen-go-agent-tool/agent_tool.go:187-194 | true if and only if some cycle of references is reachable from the message |
| `ApplyEdits.SortedAndStable` | cmd/normalize-go-imports/main.go:568-573 | the order asked for, with edits of the same place kept in list order |
| `ApplyEdits.StableIsUnique` | cmd/normalize-go-imports/main.go:568-573 | order and stability leave only one result |
| `ApplyEdits.SortKeepsSubstitution` | cmd/normalize-go-imports/main.go:568-573 | sorting changes nothing about simultaneous substitution |
| `ApplyEdits.SpliceOne` | cmd/normalize-go-imports/main.go:580-581 | splicing one more edit left of all earlier ones performs it in the substitution |
| `ApplyEdits.Refused` | cmd/normalize-go-imports/main.go:577-579 | an edit the loop refuses is out of range or really overlaps another one |
| `ApplyEdits.SliceStable` | cmd/normalize-go-imports/main.go:568-573 | the caller's list is reordered in place by the stable sort |
| `ApplyEdits.Apply` | cmd/normalize-go-imports/main.go:567-584 | succeeds if and only if every edit is in range and no two overlap; then the result is the source with all edits made at their original offsets, insertions at a replacement's start before it |
| `UniqueNames.Preferred` | cmd/normalize-go-imports/main.go:537-545 | the preferred alias is never a reserved name |
| `UniqueNames.PreferredExactly` | cmd/normalize-go-imports/main.go:537-545 | a name that is not reserved is kept, and a reserved one gets one underscore before it |
| `UniqueNames.FallbackExactly` | cmd/normalize-go-imports/main.go:521-524 | the first fallback is the old alias, or the underscored name where that is a reserved package name |
| `UniqueNames.NumberedExactly` | cmd/normalize-go-imports/main.go:528-530 | a numbered alias is the base, an underscore and the number in decimal |
| `UniqueNames.PreferredIsStable` | cmd/normalize-go-imports/main.go:537-545 | the underscore is added once |
| `UniqueNames.TriedNames` | cmd/normalize-go-imports/main.go:528-530 | the suffixed aliases all differ, so as many tries need as many taken names |
| `UniqueNames.Replacement` | cmd/normalize-go-imports/main.go:521-530 | the search for an alias ends whatever is taken, with the first free candidate |
| `UniqueNames.EnsureUniqueNames` | cmd/normalize-go-imports/main.go:513-534 | afterwards all aliases of the file differ, and one changes only if an earlier import ended up with it |
| `SecretMarkers.Find` | config/secret.go:138-149 | the first occurrence, or none |
| `SecretMarkers.ScanMeaning` | config/secret.go:326-346 | the cut of a text at its markers is a cut of that text, with every marker as early and as short as can be |
| `SecretMarkers.SourceScans` | config/secret.go:326-346 | such a cut is the only one |
| `SecretMarkers.EncryptionSeals` | config/secret.go:319-350 | with a key, encryption fails exactly on an unclosed marker, and otherwise replaces the marked parts and nothing else |
| `SecretMarkers.FreshNonces` | config/secret.go:42-64 | the n-th secret of a text that is really encrypted is sealed with the n-th nonce drawn, so no two ever share one; everything else stays |
| `SecretMarkers.KeylessEncryption` | config/secret.go:43-48 | without a key a text is returned only if it has every marker closed and nothing to encrypt; a marked secret is never returned in the clear |
| `SecretMarkers.EncryptedExactly` | config/secret.go:78-84 | a part is left alone if and only if it is empty or reads `ENC[payload]` with a payload that is not empty and holds neither colon nor bracket |
| `SecretMarkers.EncryptMarkedValue` | config/secret.go:319-350 | the cursor loop computes the recursive specification, and reports whether there was a marker |
| `SecretMarkers.DecryptSecretValue` | config/secret.go:134-163 | the cursor loop computes the recursive specification |
| `SecretMarkers.ReadOn` | config/secret.go:134-190 | a text is read token by token: a malformed payload or one that does not open fails the whole text, else its plaintext takes its place |
| `SecretMarkers.ReadEnd` | config/secret.go:134-163 | text without a token is read as it is, and a token never closed is refused |
| `SecretMarkers.Decrypt` | config/secret.go:67-75 | plain text is returned as it is, even without a key |
| `SecretMarkerLaws.Shrinks` | config/secret.go:134-189 | decrypting a sealed text never makes it longer than the stripped text, and makes it shorter if its plain text holds a token start |
| `SecretMarkerLaws.SecretRoundTrip` | config/secret.go:43-189 | for every text with closed markers: decrypting the encrypted text gives the stripped text if and only if no stretch of plain text, joined across copied parts, holds a token start |
| `SecretMarkerLaws.SecondEncryption` | config/secret_persist.go:50-56 | a second encryption finds nothing to do if and only if no such stretch holds a marker start, and then changes nothing |
| `SecretMarkerLaws.OrdinaryText` | config/secret.go:134-350 | for text without tokens and with closed, non-empty markers: the round trip holds, all else is byte-identical, and a second encryption changes nothing |
| `SecretMarkerLaws.EmptyMarkerSplices` | config/secret.go:44-46 | why the markers must not be empty: a text whose encryption holds a marker nobody wrote |
| `SecretMarkerLaws.EmptyMarkerForgesToken` | config/secret.go:44-46 | and one whose encryption does not decrypt back |
| `SecretMessages.CarryStep` | secretcrypto/middleware.go:133-146 | a type carries the target through a field that is the target or a type that carries it |
| `SecretMessages.FoundMeansCarried` | secretcrypto/middleware.go:88-122 | where the unpruned traversal finds something the type carries the target, so pruning loses nothing |
| `SecretMessages.EndsExactly` | secretcrypto/middleware.go:125-152 | the scan of a type ends if and only if its visits, field by field up to the first one that leads to the target, never come back to a type still being scanned |
| `SecretMessages.OrderDecides` | secretcrypto/middleware.go:131-149 | a type that refers to itself behind its secret is scanned, and with the two fields swapped the scan never ends |
| `SecretMessages.WellKnownIsOpaque` | secretcrypto/middleware.go:12-14 | a type of `google.protobuf` hides a secret behind it from the scan, another type of `google` does not |
| `SecretMessages.Collector.ContainsSecretTarget` | secretcrypto/middleware.go:125-152 | on every type whose scan ends: the memoised scan is right, and every memo entry equals reachability between types |
| `SecretMessages.Collector.AppendSecretMessages` | secretcrypto/middleware.go:88-122 | the pruned traversal appends exactly what the unpruned one finds, in the same order |
| `SecretMessages.Collector.CollectSecretMessages` | secretcrypto/middleware.go:78-85 | the collector returns the unpruned traversal's instances in order |
| `SecretMessages.EverySecret` | secretcrypto/middleware.go:91-130 | that traversal finds a secret if and only if it lies below the message along fields that are looked into |
| `SecretMessages.Collector.DecryptMessage` | secretcrypto/middleware.go:39-55 | every collected secret gets its own plaintext, that of its last occurrence if it occurs twice, or no text changes at all |
| `SecretMessages.Collector.ClearMessage` | secretcrypto/middleware.go:58-63 | every secret of the message is cleared |
| `SecretMessages.Collector.Serve` | secretcrypto/middleware.go:21-36 | the handler runs, once, if and only if there is nothing to decrypt or everything decrypts, and it starts with the plaintext in every secret; whatever it does to texts, no decrypted secret is left afterwards; a request that fails to decrypt is left as it was |
| `Redaction.MaskWithMin` | redact/redactor.go:443-487 | the step-by-step bounds amount to hiding the larger of what is not kept and the minimum, giving up last characters before first ones |
| `Redaction.EnoughIsHidden` | redact/redactor.go:443-487 | at least the minimum, or everything, is hidden, and never more than asked is kept on either side |
| `Redaction.KeepsTheMost` | redact/redactor.go:443-487 | of all ways to keep a beginning and an end within these limits, the mask keeps the most characters and the longest beginning |
| `Redaction.MaskedAt` | redact/redactor.go:438-487 | a one-character mask keeps the length and replaces exactly the hidden stretch |
| `Redaction.RepeatedAt` | redact/redactor.go:486 | the hidden stretch is the mask text over and over, whatever its length |
| `Redaction.MaskIsIdempotent` | redact/redactor.go:443-487 | masking a masked text with a one-character mask changes nothing |
| `Redaction.IdempotentExactly` | redact/redactor.go:443-487 | for any mask, exactly if it has one character or nothing is left to hide |
| `RedactStorage.AssociatedDataApart` | redact/storage_runtime.go:310-312 | different tenants or policies never share associated data |
| `RedactStorage.DigestDataApart` | redact/storage_runtime.go:310-317 | nor digest data, and digest data is never associated data |
| `RedactStorage.PreparedExactly` | redact/storage_runtime.go:78-115 | exactly when a value is prepared or refused, and with which error; a non-empty value is stored as the rule's text only, never as itself without rule and protector, and its original is sealed with the nonce of this submission |
| `RedactStorage.Storage.SavePrepared` | redact/storage_runtime.go:178-190 | the row is saved for its record exactly if there is a store, the record is valid and the store does not fail; otherwise nothing changes, and nothing to save is no error |
| `RedactStorage.Storage.DeletePrepared` | redact/storage_runtime.go:193-209 | exactly this row is gone, unless store, tenant, lookup or deletion fail; a missing row is no error |
| `RedactStorage.RunKeepsOthers` | redact/storage_runtime.go:178-190 | a run of submissions touches no row of another field or record |
| `RedactStorage.RunRestores` | redact/storage_runtime.go:78-230 | after any run of submissions, restoring gives the last submitted value that the rule changes |
| `RedactStorage.ColumnShowsRule` | redact/storage_runtime.go:78-115 | after any run of submissions the main row holds what the rule gives for the last one |
| `RedactStorage.RestoredExactly` | redact/storage_runtime.go:212-230 | exactly when nothing is restored |
| `RedactStorage.RestoresLastExactly` | redact/storage_runtime.go:96-99 | when that is the value submitted last: if the rule changes it, or changed none before, or the original it kept is the same |
| `RedactStorage.DisplayedMaskKeeps` | redact/storage_runtime.go:96-99 | resubmitting a displayed one-character mask never replaces the stored original |
| `RedactStorage.ShortValueIsStale` | redact/storage_runtime.go:96-99 | a value too short to be masked leaves the old original behind, and restoring gives that |
| `RedactStorage.LookupIsExact` | redact/storage_runtime.go:285-307 | a lookup by plaintext finds exactly the records that restore to it |
| `RedactStorage.EditsRestoreAndLookUp` | redact/storage_runtime.go:78-307 | after any submissions and deletions over all records and policies, a record restores to the original its last effective edit left, and a lookup by plaintext finds exactly the records that hold it |
| `RedactStorage.MovedRowIsRefused` | redact/storage_runtime.go:223-230 | a row moved to another tenant or policy restores nothing and is refused |
| `ConfigMerge.NormalizeIsNormal` | config/bootstrap_reader.go:126-149 | normalizing is idempotent and turns maps, and only maps, into maps |
| `ConfigMerge.NormalizeExactly` | config/bootstrap_reader.go:126-149 | normalizing changes nothing but the kinds of keys: it gives the one value with text keys whose leaves are equal, lists related item by item and maps key by key |
| `ConfigMerge.NormalizedLookup` | config/bootstrap_reader.go:126-149 | every value keeps its place, along paths through maps and lists |
| `ConfigMerge.MergeLookup` | config/bootstrap_reader.go:107-123 | what one merge makes of any path: the source's value replaces, maps merge, a source silent on the path keeps what was there, a value at a prefix removes it |
| `ConfigMerge.LeafSurvives` | config/bootstrap_reader.go:52-78 | after merging any list of sources, a path into maps and lists has a value that is not a map exactly when some source gives it, but for the kinds of keys, and no later one says anything at a prefix or at the path |
| `ConfigMerge.AbsentPath` | config/bootstrap_reader.go:52-78 | a path has no value exactly when no source speaks of it or the last one that does puts something else at a prefix |
| `ConfigMerge.MergeAgain` | config/bootstrap_reader.go:107-123 | merging a source again right away changes nothing |
| `ConfigMerge.NormalizedSource` | config/bootstrap_reader.go:108-116 | it makes no difference whether a source is normalized before it is merged |
| `ConfigMerge.Values.MergeFrom` | config/bootstrap_reader.go:107-123 | the merge in place, keys taken in any order, computes the specified map |
| `ConfigMerge.Values.MergeSources` | config/bootstrap_reader.go:52-75 | the sources are merged in order |

## Left out

- Floating-point rounding in rates, tokens, water and weights, and the conversion of numbers to strings and back in Redis: real numbers are used.
- Clocks that go backwards, a clock value read before the mutex is taken by a call that is then overtaken, and parameters of a key that change during a run.
- Redis commands on a key of the wrong type, replies that are not two numbers, the hash-tag check of Redis Cluster and the metadata of keys.
- The `store.TokenBucketRequest` front end: it only fills in a request.
- `Incr`, `GetDel`, lists, `HExists` and the creation and update times of the in-process cache: not used by what is proved.
- The nil receiver of the locker and the lease's context; the locker built on a Redis lock, whose safety lies in a library that is not part of this model.
- JSON text of session records, JWT and UUID generation and the text of cache keys: records are values, tokens are parameters and keys differ by construction. That a key's user ID and session ID can be told apart in its text is taken for granted.
- UserTokens.UserToken.IsTokenValid: does not model more than two clock readings in one call, because the listing after the first look is taken to happen at one instant.
- UserTokens.UserToken.RemoveToken: removes each listed session under its index field, where the program uses the ID inside the record; they are the same in every reachable cache, as SessionProtocol proves.
- SessionProtocol.RevocationIsFinal: does not model the deletion of a user's sessionless tokens by RemoveToken, and a validation that finds a sessionless token accepts at once, where the program looks at the key once more; both only leave fewer tokens valid. Removal of all sessions is a listing followed by revocations.
- The duplicate of the recursion search in `cmd/protoc-gen-go-mcp-tool/mcp_tool.go`, which is the same code.
- Parsing Go files, choosing imports and their target names, and the algorithm inside the library's stable sort, which appears by its documented effect.
- ApplyEdits.SliceStable: does not model the library's algorithm, because only its promise, a stable sorted order, is used; StableIsUnique shows that this fixes the result.
- The tree walkers over decoded configuration in `config/secret.go`, which apply the two text loops to every string, file rewriting, and the failures of the random source.
- `${key:default}` placeholders in configuration values, whose result depends on map iteration order, and keys of one map that print alike.
- SecretMessages.Collector.AppendSecretMessages: requires that the type scans it asks for end, which EndsExactly characterises, because the program does not return otherwise; and that well-known types do not carry the target, because the scan does not look into them. Map fields are never scanned, as in the program, so messages inside maps are not represented.
- SecretMessages.Collector.Serve: does not model a handler that changes the structure of the request, only one that changes texts.
- The walkers, generators and other rules of `redact/redactor.go` (regular expressions, e-mail, hashes, free text) and invalid UTF-8.
- The loops over several columns or entities (`PrepareEntityWithPolicies`, `RestoreEntities`), which repeat the operation on one field, and a nil storage object.
- RedactStorage.Storage.SavePrepared: takes a successful Save of the store to replace the row of the same tenant, policy and record, because the store is an interface.
- HTTP, MQTT, NATS and database clients, configuration centres, key providers, code templates, tracing and metrics.
