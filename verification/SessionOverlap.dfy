/**
 Overlapping rotations of one session (auth/data/user_token.go): exactly when the token a rotation saved is
 still accepted after the session's next rotation, in every interleaving of the cache operations.
 */
module SessionOverlap {
  import opened Wrappers
  import opened MemoryCache
  import opened SessionTokens
  import opened SessionProtocol

  predicate AtSave(t: Thread, userID: int, sessionID: string) {
    t.RotateSave? && t.userID == userID && t.sessionID == sessionID
  }

  /** The calls that have read the session's record and not yet saved theirs. */
  function Readers(s: State, userID: int, sessionID: string): set<nat> {
    set id | id in s.threads && AtSave(s.threads[id], userID, sessionID)
  }

  /** The step saves a record of the session: the end of a login, or of a rotation. */
  predicate Saves(s: State, step: Step, userID: int, sessionID: string) {
    && step.Advance? && step.id in s.threads
    && (|| AtSave(s.threads[step.id], userID, sessionID)
        || (s.threads[step.id].LoginSave? && s.threads[step.id].userID == userID
            && s.threads[step.id].record.sessionID == sessionID))
  }

  predicate NeverSaves(lives: Lives, s: State, steps: seq<Step>, userID: int, sessionID: string)
    requires Interleaving(lives, s, steps)
    decreases |steps|
  {
    steps == [] ||
    (!Saves(s, steps[0], userID, sessionID) && NeverSaves(lives, Next(lives, s, steps[0]), steps[1..], userID, sessionID))
  }

  /**
   The record last saved is the one stored, if any is, and the one every call holds that has read since;
   `stale` are calls that read before.
   */
  ghost predicate Current(s: State, userID: int, sessionID: string, record: TokenSession, stale: set<nat>) {
    && HashesStay(s.cache)
    && stale <= s.threads.Keys
    && OnlyRecord(s.cache, userID, sessionID, record)
    && (forall id :: id in s.threads && id !in stale && AtSave(s.threads[id], userID, sessionID) ==>
          s.threads[id].record == record)
  }

  lemma NextKeepsHashes(lives: Lives, s: State, step: Step)
    requires HashesStay(s.cache) && Enabled(s, step)
    ensures HashesStay(Next(lives, s, step).cache)
  {
  }

  /** Only its own steps move a call. */
  lemma OthersStand(lives: Lives, s: State, step: Step, id: nat)
    requires Enabled(s, step) && id in s.threads && step.id != id
    ensures id in Next(lives, s, step).threads && Next(lives, s, step).threads[id] == s.threads[id]
  {
  }

  /** The session's record, if one is stored, is this one. */
  predicate OnlyRecord(c: SessionCache, userID: int, sessionID: string, record: TokenSession) {
    var index := IndexKey(userID);
    index in c.mapItems && sessionID in c.mapItems[index].fields ==> c.mapItems[index].fields[sessionID] == record
  }

  lemma StringOpsKeepRecord(c: SessionCache, key: Key, value: string, life: int, now: int,
                            userID: int, sessionID: string, record: TokenSession)
    requires OnlyRecord(c, userID, sessionID, record)
    ensures OnlyRecord(SetStr(c, key, value, life, now), userID, sessionID, record)
    ensures OnlyRecord(DelStr(c, key), userID, sessionID, record)
    ensures OnlyRecord(ExpireStr(c, key, life, now), userID, sessionID, record)
    ensures OnlyRecord(Touched(c, key, now), userID, sessionID, record)
  {
  }

  lemma HashOpsKeepRecord(c: SessionCache, key: Key, field: string, now: int,
                          userID: int, sessionID: string, record: TokenSession)
    requires OnlyRecord(c, userID, sessionID, record)
    ensures OnlyRecord(TouchedHash(c, key, now), userID, sessionID, record)
    ensures OnlyRecord(DelField(c, key, field, now), userID, sessionID, record)
  {
  }

  lemma OtherFieldKeepsRecord(c: SessionCache, user: int, field: string, value: TokenSession, now: int,
                              userID: int, sessionID: string, record: TokenSession)
    requires OnlyRecord(c, userID, sessionID, record) && (user, field) != (userID, sessionID)
    ensures OnlyRecord(SetField(c, IndexKey(user), field, value, now), userID, sessionID, record)
  {
  }

  lemma NextKeepsRecord(lives: Lives, s: State, step: Step, userID: int, sessionID: string, record: TokenSession)
    requires Own(s) && Enabled(s, step) && !Saves(s, step, userID, sessionID)
    requires OnlyRecord(s.cache, userID, sessionID, record)
    ensures OnlyRecord(Next(lives, s, step).cache, userID, sessionID, record)
  {
    if step.Advance? {
      assert OwnThread(s.issued, s.threads[step.id]);
      hide Own, OwnThread, OnlyRecord, NewSession, Verdict;
      RecordKept(lives, s, step, userID, sessionID, record);
    }
  }

  lemma RecordKept(lives: Lives, s: State, step: Step, userID: int, sessionID: string, record: TokenSession)
    requires Enabled(s, step) && step.Advance? && !Saves(s, step, userID, sessionID)
    requires OwnThread(s.issued, s.threads[step.id]) && OnlyRecord(s.cache, userID, sessionID, record)
    ensures OnlyRecord(Next(lives, s, step).cache, userID, sessionID, record)
  {
    var c, now := s.cache, step.now;
    var rotated := if s.threads[step.id].RotateSave? then Saved(lives, s, step.id, step.tokens.0, now) else record;
    assert s.threads[step.id].RotateSave? ==> rotated.sessionID == s.threads[step.id].sessionID;
    hide OwnThread, OnlyRecord, NewSession, Verdict, Accepts, RotatedRecord, Saved;
    hide SetStr, SetField, DelField, ExpireStr, DelStr, Touched, TouchedHash, Alive, Fields;
    match s.threads[step.id]
    case LoginStart(u, sid) =>
      StringOpsKeepRecord(c, MarkerKey(u, sid), "1", MaxInt(lives.access, lives.refresh), now, userID, sessionID, record);
    case LoginSave(u, saved) => OtherFieldKeepsRecord(c, u, saved.sessionID, saved, now, userID, sessionID, record);
    case RotateStart(u, sid, _) => StringOpsKeepRecord(c, MarkerKey(u, sid), "", 0, now, userID, sessionID, record);
    case RotateRead(u, sid, _) => HashOpsKeepRecord(c, IndexKey(u), "", now, userID, sessionID, record);
    case RotateSave(u, sid, _, _) =>
      SavedIs(lives, s, step.id, step.tokens.0, now);
      OtherFieldKeepsRecord(c, u, rotated.sessionID, rotated, now, userID, sessionID, record);
    case RotateExtend(u, sid, saved) =>
      StringOpsKeepRecord(c, MarkerKey(u, sid), "", MaxInt(saved.accessExpiresAt, saved.refreshExpiresAt) - now, now,
                          userID, sessionID, record);
    case RevokeStart(u, sid) => StringOpsKeepRecord(c, MarkerKey(u, sid), "", 0, now, userID, sessionID, record);
    case RevokeIndex(u, sid) => HashOpsKeepRecord(c, IndexKey(u), sid, now, userID, sessionID, record);
    case SessionlessStart(u, kind) =>
      StringOpsKeepRecord(c, Key0(u, kind), step.tokens.0, LifeOf(lives, kind), now, userID, sessionID, record);
    case CheckStart(u, _, kind) => StringOpsKeepRecord(c, Key0(u, kind), "", 0, now, userID, sessionID, record);
    case ListStart(u, _) => HashOpsKeepRecord(c, IndexKey(u), "", now, userID, sessionID, record);
    case ListLoop(u, _, _, _) => StringOpsKeepRecord(c, MarkerKey(u, step.sid), "", 0, now, userID, sessionID, record);
    case ListDrop(u, _, dropped, _, _) => HashOpsKeepRecord(c, IndexKey(u), dropped, now, userID, sessionID, record);
    case _ =>
  }

  /** The record a rotation is about to save. */
  function Saved(lives: Lives, s: State, id: nat, token: string, now: int): TokenSession
    requires id in s.threads && s.threads[id].RotateSave?
  {
    RotatedRecord(lives, s.threads[id].record, s.threads[id].kind, token, now)
  }

  lemma SavedIs(lives: Lives, s: State, id: nat, token: string, now: int)
    requires id in s.threads && s.threads[id].RotateSave?
    ensures Saved(lives, s, id, token, now) == RotatedRecord(lives, s.threads[id].record, s.threads[id].kind, token, now)
  {
  }

  lemma NextKeepsReaders(lives: Lives, s: State, step: Step, userID: int, sessionID: string, record: TokenSession,
                         stale: set<nat>)
    requires Own(s) && Enabled(s, step) && !Saves(s, step, userID, sessionID)
    requires Current(s, userID, sessionID, record, stale)
    ensures var threads := Next(lives, s, step).threads;
            && stale <= threads.Keys
            && forall id :: id in threads && id !in stale && AtSave(threads[id], userID, sessionID) ==>
                 threads[id].record == record
  {
    var s' := Next(lives, s, step);
    if step.Advance? {
      ReadsCurrent(lives, s, step, userID, sessionID, record, stale);
    }
    forall id | id in s'.threads && id !in stale && AtSave(s'.threads[id], userID, sessionID)
      ensures s'.threads[id].record == record
    {
      if step.id != id {
        hide AdvanceThread;
        assert id in s.threads && s'.threads[id] == s.threads[id];
      }
    }
  }

  /** A call comes to save the session's record only by reading the one that is stored. */
  lemma ReadsCurrent(lives: Lives, s: State, step: Step, userID: int, sessionID: string, record: TokenSession,
                     stale: set<nat>)
    requires Enabled(s, step) && step.Advance? && !Saves(s, step, userID, sessionID)
    requires Current(s, userID, sessionID, record, stale)
    ensures var s' := Next(lives, s, step);
            && s'.threads == s.threads[step.id := s'.threads[step.id]]
            && (AtSave(s'.threads[step.id], userID, sessionID) ==> s'.threads[step.id].record == record)
  {
    hide NewSession, SetStr, SetField, DelField, ExpireStr, DelStr, Touched, TouchedHash, LifeOf, RotatedRecord;
  }

  lemma NextKeepsCurrent(lives: Lives, s: State, step: Step, userID: int, sessionID: string, record: TokenSession,
                         stale: set<nat>)
    requires Own(s) && Enabled(s, step) && !Saves(s, step, userID, sessionID)
    requires Current(s, userID, sessionID, record, stale)
    ensures Current(Next(lives, s, step), userID, sessionID, record, stale)
  {
    NextKeepsHashes(lives, s, step);
    NextKeepsRecord(lives, s, step, userID, sessionID, record);
    NextKeepsReaders(lives, s, step, userID, sessionID, record, stale);
    hide Own, Next;
  }

  /** Between two saves nothing changes the record, nor what the calls hold that are about to save. */
  lemma {:induction false} StaysCurrent(lives: Lives, s: State, steps: seq<Step>, userID: int, sessionID: string,
                                        record: TokenSession, stale: set<nat>)
    requires Own(s) && Current(s, userID, sessionID, record, stale)
    requires Interleaving(lives, s, steps) && NeverSaves(lives, s, steps, userID, sessionID)
    ensures var last := After(lives, s, steps);
            && Own(last) && Current(last, userID, sessionID, record, stale) && Extends(s.issued, last.issued)
            && forall id :: id in s.threads && AtSave(s.threads[id], userID, sessionID) ==>
                 id in last.threads && last.threads[id] == s.threads[id]
    decreases |steps|
  {
    hide Own, Current, Enabled, Next;
    if steps == [] {
    } else {
      NextKeepsOwn(lives, s, steps[0]);
      NextKeepsCurrent(lives, s, steps[0], userID, sessionID, record, stale);
      NextIssues(lives, s, steps[0]);
      forall id | id in s.threads && AtSave(s.threads[id], userID, sessionID)
        ensures id in Next(lives, s, steps[0]).threads && Next(lives, s, steps[0]).threads[id] == s.threads[id]
      {
        SaverStands(lives, s, steps[0], userID, sessionID, id);
      }
      StaysCurrent(lives, Next(lives, s, steps[0]), steps[1..], userID, sessionID, record, stale);
    }
  }

  lemma SaverStands(lives: Lives, s: State, step: Step, userID: int, sessionID: string, id: nat)
    requires Enabled(s, step) && !Saves(s, step, userID, sessionID)
    requires id in s.threads && AtSave(s.threads[id], userID, sessionID)
    ensures id in Next(lives, s, step).threads && Next(lives, s, step).threads[id] == s.threads[id]
  {
    assert step.id != id;
    OthersStand(lives, s, step, id);
    hide Next;
  }

  lemma NextIssues(lives: Lives, s: State, step: Step)
    requires Enabled(s, step)
    ensures Extends(s.issued, Next(lives, s, step).issued)
  {
    hide NewSession, Verdict, SetStr, SetField, DelField, ExpireStr, DelStr, Touched, TouchedHash, RotatedRecord;
  }

  lemma {:induction false} ReachableHashes(lives: Lives, s: State, steps: seq<Step>)
    requires HashesStay(s.cache) && Interleaving(lives, s, steps)
    ensures HashesStay(After(lives, s, steps).cache)
    decreases |steps|
  {
    hide HashesStay, Enabled, Next;
    if steps == [] {
    } else {
      NextKeepsHashes(lives, s, steps[0]);
      ReachableHashes(lives, Next(lives, s, steps[0]), steps[1..]);
    }
  }

  // ---------- one rotation and the next ----------

  /** Saving makes the record current; whoever has read already is stale from then on. */
  lemma SaveMakesCurrent(lives: Lives, s: State, step: Step, userID: int, sessionID: string)
    requires Own(s) && HashesStay(s.cache) && Enabled(s, step) && step.Advance?
    requires AtSave(s.threads[step.id], userID, sessionID)
    ensures var s', index := Next(lives, s, step), IndexKey(userID);
            var record := Saved(lives, s, step.id, step.tokens.0, step.now);
            && Current(s', userID, sessionID, record, Readers(s', userID, sessionID))
            && index in s'.cache.mapItems && sessionID in s'.cache.mapItems[index].fields
            && s'.cache.mapItems[index].fields[sessionID] == record
            && s'.issued == s.issued[step.tokens.0 := OfSession(userID, sessionID)]
            && s'.threads == s.threads[step.id := RotateExtend(userID, sessionID, record)]
            && (forall key, t :: Alive(s'.cache, key, t) == Alive(s.cache, key, t))
  {
    assert OwnThread(s.issued, s.threads[step.id]);
    var s' := Next(lives, s, step);
    hide OwnThread, OwnCache;
    assert s'.threads[step.id] == RotateExtend(userID, sessionID, Saved(lives, s, step.id, step.tokens.0, step.now));
  }

  /** For a token of a session, validation comes down to the session's marker and its stored record. */
  lemma SessionToken(s: State, userID: int, sessionID: string, kind: Kind, token: string, t: int)
    requires Own(s) && HashesStay(s.cache) && Owned(s.issued, token, OfSession(userID, sessionID))
    requires IndexKey(userID) in s.cache.mapItems && sessionID in s.cache.mapItems[IndexKey(userID)].fields
    ensures Valid(s.cache, userID, kind, token, t) <==>
            && Alive(s.cache, MarkerKey(userID, sessionID), t)
            && Accepts(s.cache.mapItems[IndexKey(userID)].fields[sessionID], token, kind, t)
  {
    var live, fields := Sessions(s.cache, userID, t), s.cache.mapItems[IndexKey(userID)].fields;
    assert OwnRecords(s.issued, userID, fields);
    forall sid | sid in live && Accepts(live[sid], token, kind, t) ensures sid == sessionID {
      assert OwnRecord(s.issued, userID, sid, fields[sid]);
    }
    NotPlain(s, userID, sessionID, kind, token, t);
    if Alive(s.cache, MarkerKey(userID, sessionID), t) {
      assert sessionID in live && live[sessionID] == fields[sessionID];
    }
  }

  lemma NotPlain(s: State, userID: int, sessionID: string, kind: Kind, token: string, t: int)
    requires Own(s) && Owned(s.issued, token, OfSession(userID, sessionID))
    ensures token != "" && !Stored(s.cache, Key0(userID, kind), token, t)
  {
    if Key0(userID, kind) in s.cache.strItems {
      assert Owned(s.issued, s.cache.strItems[Key0(userID, kind)].value, Sessionless(userID));
    }
  }

  /**
   How long a token may still be used after the next rotation of its session: an access token through its
   grace or its own expiry, a refresh token only if the next rotation was not of the refresh token.
   */
  predicate StillGood(lives: Lives, kind: Kind, next: Kind, saved: int, rotated: int, t: int) {
    match kind
    case Access => t < if next.Access? then MinInt(saved + lives.access, rotated + GRACE) else saved + lives.access
    case Refresh => next.Access? && t < saved + lives.refresh
  }

  predicate Mentions(record: TokenSession, token: string) {
    record.accessToken == token || record.refreshToken == token || record.previousAccessToken == token
  }

  /** Rotating the record that holds the token keeps it, as far as it should be kept. */
  lemma RotatedOnce(lives: Lives, before: TokenSession, kind: Kind, token: string, saved: int,
                    next: Kind, later: string, rotated: int, t: int)
    requires !Mentions(before, token) && token != "" && later != token
    ensures var first := RotatedRecord(lives, before, kind, token, saved);
            Accepts(RotatedRecord(lives, first, next, later, rotated), token, kind, t) <==>
            StillGood(lives, kind, next, saved, rotated, t)
  {
  }

  /** Rotating a record that does not hold the token drops it. */
  lemma RotatedElse(lives: Lives, before: TokenSession, kind: Kind, token: string, next: Kind, later: string,
                    rotated: int, t: int)
    requires !Mentions(before, token) && token != "" && later != token
    ensures !Accepts(RotatedRecord(lives, before, next, later, rotated), token, kind, t)
    ensures !Mentions(RotatedRecord(lives, before, next, later, rotated), token)
  {
  }

  /** A record a call holds mentions no token that is yet to be issued. */
  lemma HeldBefore(s: State, id: nat, token: string)
    requires Own(s) && id in s.threads && s.threads[id].RotateSave? && Unissued(s, token)
    ensures !Mentions(s.threads[id].record, token)
  {
    assert OwnThread(s.issued, s.threads[id]);
  }

  /** A reachable state, in which a rotation saves its token, and the state after that. */
  ghost predicate FirstSave(lives: Lives, earlier: seq<Step>, first: Step, userID: int, sessionID: string) {
    && Interleaving(lives, INITIAL, earlier)
    && var s := After(lives, INITIAL, earlier);
       && Enabled(s, first) && first.Advance? && AtSave(s.threads[first.id], userID, sessionID)
  }

  /** From there, steps that save nothing of the session, and then its next rotation saves. */
  ghost predicate NextSave(lives: Lives, s: State, middle: seq<Step>, second: Step, userID: int, sessionID: string) {
    && Interleaving(lives, s, middle) && NeverSaves(lives, s, middle, userID, sessionID)
    && var m := After(lives, s, middle);
       && Enabled(m, second) && second.Advance? && AtSave(m.threads[second.id], userID, sessionID)
  }

  /**
   Exactly when a rotation's token outlives the session's next rotation, in every interleaving. The two
   overlap if the second had read the record before the first saved its own. Without overlap the second
   rotates the record that is stored, and the token validates for as long as it should; with overlap it
   rotates an older record, and the token never validates again.
   */
  lemma RotationSurvives(lives: Lives, earlier: seq<Step>, first: Step, middle: seq<Step>, second: Step,
                         userID: int, sessionID: string, t: int)
    requires FirstSave(lives, earlier, first, userID, sessionID)
    requires NextSave(lives, Next(lives, After(lives, INITIAL, earlier), first), middle, second, userID, sessionID)
    ensures var s := After(lives, INITIAL, earlier);
            var s1 := Next(lives, s, first);
            var m := After(lives, s1, middle);
            var s2 := Next(lives, m, second);
            var kind, token, overlap := s.threads[first.id].kind, first.tokens.0, second.id in Readers(s1, userID, sessionID);
            && (overlap <==> m.threads[second.id].record != Saved(lives, s, first.id, token, first.now))
            && (Valid(s2.cache, userID, kind, token, t) <==>
                  && !overlap && Alive(s2.cache, MarkerKey(userID, sessionID), t)
                  && StillGood(lives, kind, m.threads[second.id].kind, first.now, second.now, t))
  {
    var s := After(lives, INITIAL, earlier);
    ReachableOwn(lives, INITIAL, earlier);
    ReachableHashes(lives, INITIAL, earlier);
    var kind, token := s.threads[first.id].kind, first.tokens.0;
    var record := Saved(lives, s, first.id, token, first.now);
    var s1 := Next(lives, s, first);
    NextKeepsOwn(lives, s, first);
    SaveMakesCurrent(lives, s, first, userID, sessionID);
    StaysCurrent(lives, s1, middle, userID, sessionID, record, Readers(s1, userID, sessionID));
    var m := After(lives, s1, middle);
    var s2 := Next(lives, m, second);
    NextKeepsOwn(lives, m, second);
    SaveMakesCurrent(lives, m, second, userID, sessionID);
    HeldBefore(s, first.id, token);
    var held := m.threads[second.id].record;
    if second.id in Readers(s1, userID, sessionID) {
      assert s.threads[second.id] == m.threads[second.id];
      HeldBefore(s, second.id, token);
      RotatedElse(lives, held, kind, token, m.threads[second.id].kind, second.tokens.0, second.now, t);
      assert Mentions(record, token);
    } else {
      assert held == record;
      RotatedOnce(lives, s.threads[first.id].record, kind, token, first.now,
                  m.threads[second.id].kind, second.tokens.0, second.now, t);
    }
    SessionToken(s2, userID, sessionID, kind, token, t);
  }

  // ---------- two rotations that overlap ----------

  const LIVES := Lives(100, 200)

  /** A login, and two rotations that both read its record. */
  const PRELUDE: seq<Step> := [
    Spawn(0, LoginStart(1, "s")), Advance(0, 0, ("a", "r"), ""), Advance(0, 0, ("", ""), ""),
    Spawn(1, RotateStart(1, "s", Access)), Advance(1, 0, ("", ""), ""), Advance(1, 0, ("", ""), ""),
    Spawn(2, RotateStart(1, "s", Access)), Advance(2, 0, ("", ""), ""), Advance(2, 0, ("", ""), "")]

  const FIRST := Advance(1, 0, ("b", ""), "")
  const SECOND := Advance(2, 0, ("c", ""), "")

  const LOGIN := TokenSession("s", "a", "r", 100, 200, "", 0)

  const ISSUED: map<string, Owner> := map["a" := OfSession(1, "s"), "r" := OfSession(1, "s")]

  const STORED: SessionCache :=
    Cache(map[MarkerKey(1, "s") := StrItem("1", Some(200))], map[IndexKey(1) := MapItem(map["s" := LOGIN], None)])

  lemma Prepend(lives: Lives, s: State, step: Step, s': State, rest: seq<Step>)
    requires Enabled(s, step) && s' == Next(lives, s, step) && Interleaving(lives, s', rest)
    ensures Interleaving(lives, s, [step] + rest) && After(lives, s, [step] + rest) == After(lives, s', rest)
  {
    assert ([step] + rest)[1..] == rest;
  }

  /** The login, step by step. */
  lemma LoginSteps() returns (s: State)
    ensures Interleaving(LIVES, INITIAL, PRELUDE[..3]) && s == After(LIVES, INITIAL, PRELUDE[..3])
    ensures s == State(STORED, None, ISSUED, map[0 := Finished])
  {
    var s1 := State(INITIAL.cache, None, map[], map[0 := LoginStart(1, "s")]);
    var s2 := State(Cache(map[MarkerKey(1, "s") := StrItem("1", Some(200))], map[]), None, ISSUED, map[0 := LoginSave(1, LOGIN)]);
    s := State(STORED, None, ISSUED, map[0 := Finished]);
    assert s1 == Next(LIVES, INITIAL, PRELUDE[0]);
    assert Next(LIVES, s1, PRELUDE[1]) == s2;
    assert Next(LIVES, s2, PRELUDE[2]) == s;
    hide Next, Enabled;
    Prepend(LIVES, s2, PRELUDE[2], s, []);
    Prepend(LIVES, s1, PRELUDE[1], s2, [PRELUDE[2]]);
    Prepend(LIVES, INITIAL, PRELUDE[0], s1, [PRELUDE[1]] + [PRELUDE[2]]);
    assert PRELUDE[..3] == [PRELUDE[0]] + ([PRELUDE[1]] + ([PRELUDE[2]] + []));
    assert [PRELUDE[2]] + [] == [PRELUDE[2]];
  }

  function ReadSteps(id: nat): seq<Step> {
    [Spawn(id, RotateStart(1, "s", Access)), Advance(id, 0, ("", ""), ""), Advance(id, 0, ("", ""), "")]
  }

  /** A new rotation starts and reads the record of the login. */
  lemma ReadsLogin(id: nat, threads: map<nat, Thread>)
    requires id !in threads
    ensures var s := State(STORED, None, ISSUED, threads);
            && Interleaving(LIVES, s, ReadSteps(id))
            && After(LIVES, s, ReadSteps(id))
                 == State(STORED, None, ISSUED, threads[id := RotateSave(1, "s", Access, LOGIN)])
  {
    var steps := ReadSteps(id);
    var s0 := State(STORED, None, ISSUED, threads);
    var s1 := State(STORED, None, ISSUED, threads[id := RotateStart(1, "s", Access)]);
    var s2 := State(STORED, None, ISSUED, threads[id := RotateRead(1, "s", Access)]);
    var s3 := State(STORED, None, ISSUED, threads[id := RotateSave(1, "s", Access, LOGIN)]);
    assert Next(LIVES, s0, steps[0]) == s1;
    assert Next(LIVES, s1, steps[1]) == s2 by { assert s1.threads[id := RotateRead(1, "s", Access)] == s2.threads; }
    assert Next(LIVES, s2, steps[2]) == s3 by { assert s2.threads[id := RotateSave(1, "s", Access, LOGIN)] == s3.threads; }
    hide Next, Enabled;
    Prepend(LIVES, s2, steps[2], s3, []);
    Prepend(LIVES, s1, steps[1], s2, [steps[2]]);
    Prepend(LIVES, s0, steps[0], s1, [steps[1]] + [steps[2]]);
    assert steps == [steps[0]] + ([steps[1]] + [steps[2]]) && [steps[2]] + [] == [steps[2]];
  }

  lemma {:induction false} Join(lives: Lives, s: State, a: seq<Step>, b: seq<Step>)
    requires Interleaving(lives, s, a) && Interleaving(lives, After(lives, s, a), b)
    ensures Interleaving(lives, s, a + b) && After(lives, s, a + b) == After(lives, After(lives, s, a), b)
    decreases |a|
  {
    hide Next, Enabled;
    if a == [] {
      assert a + b == b;
    } else {
      Join(lives, Next(lives, s, a[0]), a[1..], b);
      assert (a + b)[1..] == a[1..] + b && (a + b)[0] == a[0];
    }
  }

  lemma PreludeState() returns (s: State)
    ensures Interleaving(LIVES, INITIAL, PRELUDE) && s == After(LIVES, INITIAL, PRELUDE)
    ensures s == State(STORED, None, ISSUED, map[0 := Finished, 1 := RotateSave(1, "s", Access, LOGIN),
                                                 2 := RotateSave(1, "s", Access, LOGIN)])
  {
    var login := LoginSteps();
    hide Next, Enabled, Interleaving, After;
    ReadsLogin(1, login.threads);
    Join(LIVES, INITIAL, PRELUDE[..3], ReadSteps(1));
    var one := login.threads[1 := RotateSave(1, "s", Access, LOGIN)];
    ReadsLogin(2, one);
    Join(LIVES, INITIAL, PRELUDE[..3] + ReadSteps(1), ReadSteps(2));
    assert PRELUDE == PRELUDE[..3] + ReadSteps(1) + ReadSteps(2);
    s := State(STORED, None, ISSUED, one[2 := RotateSave(1, "s", Access, LOGIN)]);
  }

  /** The first rotation's token validates until the second one saves, and never afterwards. */
  lemma OverlapLosesAToken()
    ensures FirstSave(LIVES, PRELUDE, FIRST, 1, "s")
    ensures var s1 := Next(LIVES, After(LIVES, INITIAL, PRELUDE), FIRST);
            && NextSave(LIVES, s1, [], SECOND, 1, "s") && Valid(s1.cache, 1, Access, "b", 0)
            && var s2 := Next(LIVES, s1, SECOND);
               && Alive(s2.cache, MarkerKey(1, "s"), 0)
               && forall t :: !Valid(s2.cache, 1, Access, "b", t)
  {
    var s := PreludeState();
    hide Interleaving, After;
    ReachableOwn(LIVES, INITIAL, PRELUDE);
    ReachableHashes(LIVES, INITIAL, PRELUDE);
    assert Enabled(s, FIRST);
    SaveMakesCurrent(LIVES, s, FIRST, 1, "s");
    NextKeepsOwn(LIVES, s, FIRST);
    assert Alive(s.cache, MarkerKey(1, "s"), 0);
    FirstValidates(s, Next(LIVES, s, FIRST));
    NoMiddle(Next(LIVES, s, FIRST));
    SecondEnabled(s);
    SaveMakesCurrent(LIVES, Next(LIVES, s, FIRST), SECOND, 1, "s");
    forall t ensures !Valid(Next(LIVES, Next(LIVES, s, FIRST), SECOND).cache, 1, Access, "b", t) {
      hide Next, Enabled, Valid, Saved, Own, Current;
      RotationSurvives(LIVES, PRELUDE, FIRST, [], SECOND, 1, "s", t);
    }
  }

  lemma NoMiddle(s: State)
    ensures Interleaving(LIVES, s, []) && NeverSaves(LIVES, s, [], 1, "s") && After(LIVES, s, []) == s
  {
  }

  lemma SecondEnabled(s: State)
    requires s == State(STORED, None, ISSUED, map[0 := Finished, 1 := RotateSave(1, "s", Access, LOGIN),
                                                  2 := RotateSave(1, "s", Access, LOGIN)])
    ensures var s1 := Next(LIVES, s, FIRST);
            Enabled(s1, SECOND) && AtSave(s1.threads[2], 1, "s") && 2 in Readers(s1, 1, "s")
  {
  }

  lemma FirstValidates(s: State, s1: State)
    requires Own(s1) && HashesStay(s1.cache) && s1.issued == s.issued["b" := OfSession(1, "s")]
    requires IndexKey(1) in s1.cache.mapItems && "s" in s1.cache.mapItems[IndexKey(1)].fields
    requires s1.cache.mapItems[IndexKey(1)].fields["s"] == RotateAccess(LOGIN, "b", LIVES.access, 0)
    requires Alive(s1.cache, MarkerKey(1, "s"), 0)
    ensures Valid(s1.cache, 1, Access, "b", 0)
  {
    SessionToken(s1, 1, "s", Access, "b", 0);
  }
}
