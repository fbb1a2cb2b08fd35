/**
 Login, rotation, listing, validation and revocation (auth/data/user_token.go) as interleaved
 atomic cache operations.  Each cache operation is one step; the index mutex is held over a
 listing and around each single write or delete of an index field.

 The theorem: once a session's marker is deleted, and its ID is not issued again, no validation
 that starts afterwards accepts an access or refresh token of that session.
 */
module SessionProtocol {
  import opened Wrappers
  import opened MemoryCache
  import opened SessionTokens

  /** What a listing is for: returning the sessions, or validating a token. */
  datatype Purpose = ListOnly | Validate(token: string, kind: Kind)

  /** A call between two cache operations, with its local variables. */
  datatype Thread =
    | LoginStart(userID: int, sessionID: string)
    | LoginSave(userID: int, record: TokenSession)
    | RotateStart(userID: int, sessionID: string, kind: Kind)
    | RotateRead(userID: int, sessionID: string, kind: Kind)
    | RotateSave(userID: int, sessionID: string, kind: Kind, record: TokenSession)
    | RotateExtend(userID: int, sessionID: string, record: TokenSession)
    | RevokeStart(userID: int, sessionID: string)
    | RevokeIndex(userID: int, sessionID: string)
    | SessionlessStart(userID: int, kind: Kind)
    | CheckStart(userID: int, token: string, kind: Kind)
    | ListStart(userID: int, purpose: Purpose)
    | ListLoop(userID: int, purpose: Purpose, pending: map<string, TokenSession>, sessions: map<string, TokenSession>)
    | ListDrop(userID: int, purpose: Purpose, sid: string, pending: map<string, TokenSession>, sessions: map<string, TokenSession>)
    | Accepted(userID: int, token: string, kind: Kind)
    | Listed(userID: int, sessions: map<string, TokenSession>)
    | Finished

  datatype State = State(
    cache: SessionCache,
    indexOwner: Option<nat>,
    issued: map<string, Owner>,
    threads: map<nat, Thread>)

  /** A thread starts, or makes its next step at time `now`; `tokens` are newly generated, `sid` is the loop's pick. */
  datatype Step = Spawn(id: nat, thread: Thread) | Advance(id: nat, now: int, tokens: (string, string), sid: string)

  predicate IsStart(t: Thread) {
    match t
    case LoginStart(_, _) => true
    case RotateStart(_, _, _) => true
    case RevokeStart(_, _) => true
    case SessionlessStart(_, _) => true
    case CheckStart(_, token, _) => token != ""
    case ListStart(_, purpose) => purpose.ListOnly?
    case _ => false
  }

  predicate IsOver(t: Thread) {
    t.Accepted? || t.Listed? || t.Finished?
  }

  /** Tokens come from a UUID generator: never empty and never issued before. */
  predicate Unissued(s: State, token: string) {
    token != "" && token !in s.issued
  }

  predicate IndexFree(s: State) {
    s.indexOwner.None?
  }

  predicate Enabled(s: State, step: Step) {
    match step
    case Spawn(id, thread) => id !in s.threads && IsStart(thread)
    case Advance(id, now, tokens, sid) =>
      && id in s.threads && !IsOver(s.threads[id])
      && match s.threads[id]
         case LoginStart(_, _) => Unissued(s, tokens.0) && Unissued(s, tokens.1) && tokens.0 != tokens.1
         case LoginSave(_, _) => IndexFree(s)
         case RotateSave(_, _, _, _) => IndexFree(s) && Unissued(s, tokens.0)
         case RevokeIndex(_, _) => IndexFree(s)
         case SessionlessStart(_, _) => Unissued(s, tokens.0)
         case ListStart(_, _) => IndexFree(s)
         case ListLoop(_, _, pending, _) => s.indexOwner == Some(id) && (pending != map[] ==> sid in pending)
         case ListDrop(_, _, _, _, _) => s.indexOwner == Some(id)
         case _ => true
  }

  /** The end of a listing: validation accepts if one of the collected records does. */
  function Verdict(userID: int, purpose: Purpose, sessions: map<string, TokenSession>, now: int): Thread {
    match purpose
    case ListOnly => Listed(userID, sessions)
    case Validate(token, kind) =>
      if exists sid :: sid in sessions && Accepts(sessions[sid], token, kind, now) then Accepted(userID, token, kind)
      else Finished
  }

  function Issued(s: State, token: string, owner: Owner): map<string, Owner> {
    s.issued[token := owner]
  }

  function Next(lives: Lives, s: State, step: Step): State
    requires Enabled(s, step)
  {
    match step
    case Spawn(id, thread) => s.(threads := s.threads[id := thread])
    case Advance(id, now, tokens, sid) => AdvanceThread(lives, s, id, now, tokens, sid)
  }

  function AdvanceThread(lives: Lives, s: State, id: nat, now: int, tokens: (string, string), sid: string): State
    requires Enabled(s, Advance(id, now, tokens, sid))
  {
    var c := s.cache;
    match s.threads[id]
    case LoginStart(userID, sessionID) =>
      s.(cache := SetStr(c, MarkerKey(userID, sessionID), "1", MaxInt(lives.access, lives.refresh), now),
         issued := s.issued[tokens.0 := OfSession(userID, sessionID)][tokens.1 := OfSession(userID, sessionID)],
         threads := s.threads[id := LoginSave(userID, NewSession(sessionID, tokens.0, tokens.1, lives.access, lives.refresh, now))])
    case LoginSave(userID, record) =>
      s.(cache := SetField(c, IndexKey(userID), record.sessionID, record, now), threads := s.threads[id := Finished])
    case RotateStart(userID, sessionID, kind) =>
      s.(cache := Touched(c, MarkerKey(userID, sessionID), now),
         threads := s.threads[id := if Alive(c, MarkerKey(userID, sessionID), now) then RotateRead(userID, sessionID, kind) else Finished])
    case RotateRead(userID, sessionID, kind) =>
      var fields := Fields(c, IndexKey(userID), now);
      s.(cache := TouchedHash(c, IndexKey(userID), now),
         threads := s.threads[id := if fields.Some? && sessionID in fields.value
                                    then RotateSave(userID, sessionID, kind, fields.value[sessionID]) else Finished])
    case RotateSave(userID, sessionID, kind, record) =>
      var rotated := RotatedRecord(lives, record, kind, tokens.0, now);
      s.(cache := SetField(c, IndexKey(userID), rotated.sessionID, rotated, now),
         issued := Issued(s, tokens.0, OfSession(userID, sessionID)),
         threads := s.threads[id := RotateExtend(userID, sessionID, rotated)])
    case RotateExtend(userID, sessionID, record) =>
      s.(cache := ExpireStr(c, MarkerKey(userID, sessionID), MaxInt(record.accessExpiresAt, record.refreshExpiresAt) - now, now),
         threads := s.threads[id := Finished])
    case RevokeStart(userID, sessionID) =>
      s.(cache := DelStr(c, MarkerKey(userID, sessionID)), threads := s.threads[id := RevokeIndex(userID, sessionID)])
    case RevokeIndex(userID, sessionID) =>
      s.(cache := DelField(c, IndexKey(userID), sessionID, now), threads := s.threads[id := Finished])
    case SessionlessStart(userID, kind) =>
      s.(cache := SetStr(c, Key0(userID, kind), tokens.0, LifeOf(lives, kind), now),
         issued := Issued(s, tokens.0, Sessionless(userID)),
         threads := s.threads[id := Finished])
    case CheckStart(userID, token, kind) =>
      s.(cache := Touched(c, Key0(userID, kind), now),
         threads := s.threads[id := if Stored(c, Key0(userID, kind), token, now) then Accepted(userID, token, kind)
                                    else ListStart(userID, Validate(token, kind))])
    case ListStart(userID, purpose) =>
      var fields := Fields(c, IndexKey(userID), now);
      s.(cache := TouchedHash(c, IndexKey(userID), now), indexOwner := Some(id),
         threads := s.threads[id := ListLoop(userID, purpose, if fields.Some? then fields.value else map[], map[])])
    case ListLoop(userID, purpose, pending, sessions) =>
      if pending == map[] then
        s.(indexOwner := None, threads := s.threads[id := Verdict(userID, purpose, sessions, now)])
      else
        s.(cache := Touched(c, MarkerKey(userID, sid), now),
           threads := s.threads[id :=
             if Alive(c, MarkerKey(userID, sid), now)
             then ListLoop(userID, purpose, pending - {sid}, sessions[sid := pending[sid]])
             else ListDrop(userID, purpose, sid, pending - {sid}, sessions)])
    case ListDrop(userID, purpose, dropped, pending, sessions) =>
      s.(cache := DelField(c, IndexKey(userID), dropped, now),
         threads := s.threads[id := ListLoop(userID, purpose, pending, sessions)])
    case _ => s
  }

  predicate Interleaving(lives: Lives, s: State, steps: seq<Step>)
    decreases |steps|
  {
    steps == [] || (Enabled(s, steps[0]) && Interleaving(lives, Next(lives, s, steps[0]), steps[1..]))
  }

  function After(lives: Lives, s: State, steps: seq<Step>): State
    requires Interleaving(lives, s, steps)
    decreases |steps|
  {
    if steps == [] then s else After(lives, Next(lives, s, steps[0]), steps[1..])
  }

  const INITIAL := State(Cache(map[], map[]), None, map[], map[])

  // ---------- every record holds only tokens of its own session ----------

  predicate OwnRecord(issued: map<string, Owner>, userID: int, sid: string, record: TokenSession) {
    var owner := OfSession(userID, sid);
    && record.sessionID == sid
    && Owned(issued, record.accessToken, owner)
    && Owned(issued, record.refreshToken, owner)
    && (record.previousAccessToken == "" || Owned(issued, record.previousAccessToken, owner))
  }

  predicate OwnRecords(issued: map<string, Owner>, userID: int, records: map<string, TokenSession>) {
    forall sid :: sid in records ==> OwnRecord(issued, userID, sid, records[sid])
  }

  /** A thread's local records, and the token a validation is about. */
  predicate OwnThread(issued: map<string, Owner>, t: Thread) {
    match t
    case LoginSave(userID, record) => OwnRecord(issued, userID, record.sessionID, record)
    case RotateSave(userID, sessionID, _, record) => OwnRecord(issued, userID, sessionID, record)
    case RotateExtend(userID, sessionID, record) => OwnRecord(issued, userID, sessionID, record)
    case CheckStart(_, token, _) => token != ""
    case ListStart(_, purpose) => purpose.Validate? ==> purpose.token != ""
    case ListLoop(userID, purpose, pending, sessions) =>
      && OwnRecords(issued, userID, pending) && OwnRecords(issued, userID, sessions)
      && (purpose.Validate? ==> purpose.token != "")
    case ListDrop(userID, purpose, _, pending, sessions) =>
      && OwnRecords(issued, userID, pending) && OwnRecords(issued, userID, sessions)
      && (purpose.Validate? ==> purpose.token != "")
    case Accepted(_, token, _) => token in issued
    case _ => true
  }

  /** Index entries are records of their own session; sessionless keys hold sessionless tokens. */
  ghost predicate OwnCache(issued: map<string, Owner>, c: SessionCache) {
    && (forall key :: key in c.mapItems ==> key.IndexKey? && OwnRecords(issued, key.userID, c.mapItems[key].fields))
    && (forall key :: key in c.strItems && !key.MarkerKey? ==>
          Owned(issued, c.strItems[key].value, Sessionless(key.userID)))
  }

  ghost predicate Own(s: State) {
    && "" !in s.issued
    && OwnCache(s.issued, s.cache)
    && (forall id :: id in s.threads ==> OwnThread(s.issued, s.threads[id]))
  }

  predicate Extends(issued: map<string, Owner>, issued': map<string, Owner>) {
    forall token :: token in issued ==> token in issued' && issued'[token] == issued[token]
  }

  lemma OwnGrows(issued: map<string, Owner>, issued': map<string, Owner>, c: SessionCache, threads: map<nat, Thread>)
    requires Extends(issued, issued') && OwnCache(issued, c)
    requires forall id :: id in threads ==> OwnThread(issued, threads[id])
    ensures OwnCache(issued', c)
    ensures forall id :: id in threads ==> OwnThread(issued', threads[id])
  {
    forall userID, records | OwnRecords(issued, userID, records) ensures OwnRecords(issued', userID, records) {
    }
    forall key | key in c.strItems && !key.MarkerKey?
      ensures Owned(issued', c.strItems[key].value, Sessionless(key.userID))
    {
      assert Owned(issued, c.strItems[key].value, Sessionless(key.userID));
    }
    forall id | id in threads ensures OwnThread(issued', threads[id]) {
      assert OwnThread(issued, threads[id]);
    }
  }

  /** No operation on the strings but a write of a foreign token can break ownership. */
  lemma StringOpsKeepOwn(issued: map<string, Owner>, c: SessionCache, key: Key, life: int, now: int)
    requires OwnCache(issued, c)
    ensures OwnCache(issued, Touched(c, key, now))
    ensures OwnCache(issued, DelStr(c, key)) && OwnCache(issued, ExpireStr(c, key, life, now))
    ensures key.MarkerKey? ==> OwnCache(issued, SetStr(c, key, "1", life, now))
  {
    StringsOwn(issued, c, Touched(c, key, now), key);
    StringsOwn(issued, c, DelStr(c, key), key);
    StringsOwn(issued, c, ExpireStr(c, key, life, now), key);
    if key.MarkerKey? { StringsOwn(issued, c, SetStr(c, key, "1", life, now), key); }
    hide OwnCache;
  }

  /** A string may go, or get a new deadline, and a marker may get any value. */
  lemma StringsOwn(issued: map<string, Owner>, c: SessionCache, c': SessionCache, key: Key)
    requires OwnCache(issued, c) && c'.mapItems == c.mapItems && c'.strItems.Keys <= c.strItems.Keys + {key}
    requires forall k :: k in c'.strItems && k != key ==> c'.strItems[k] == c.strItems[k]
    requires key in c'.strItems && !key.MarkerKey? ==> key in c.strItems && c'.strItems[key].value == c.strItems[key].value
    ensures OwnCache(issued, c')
  {
    hide OwnRecords;
  }

  lemma HashOpsKeepOwn(issued: map<string, Owner>, c: SessionCache, key: Key, field: string, now: int)
    requires OwnCache(issued, c)
    ensures OwnCache(issued, TouchedHash(c, key, now)) && OwnCache(issued, DelField(c, key, field, now))
  {
    hide OwnRecord;
  }

  lemma SetFieldKeepsOwn(issued: map<string, Owner>, c: SessionCache, userID: int, record: TokenSession, now: int)
    requires OwnCache(issued, c) && OwnRecord(issued, userID, record.sessionID, record)
    ensures OwnCache(issued, SetField(c, IndexKey(userID), record.sessionID, record, now))
  {
    hide OwnRecord;
  }

  lemma SetTokenKeepsOwn(issued: map<string, Owner>, c: SessionCache, userID: int, kind: Kind, token: string,
                         life: int, now: int)
    requires OwnCache(issued, c) && Owned(issued, token, Sessionless(userID))
    ensures OwnCache(issued, SetStr(c, Key0(userID, kind), token, life, now))
  {
    hide OwnRecord;
  }

  lemma FieldsOwn(issued: map<string, Owner>, c: SessionCache, userID: int, now: int)
    requires OwnCache(issued, c) && Fields(c, IndexKey(userID), now).Some?
    ensures OwnRecords(issued, userID, Fields(c, IndexKey(userID), now).value)
  {
  }

  lemma RotationOwn(issued: map<string, Owner>, userID: int, record: TokenSession, kind: Kind, token: string,
                    life: int, now: int)
    requires OwnRecord(issued, userID, record.sessionID, record)
    requires Owned(issued, token, OfSession(userID, record.sessionID))
    ensures OwnRecord(issued, userID, record.sessionID, RotateAccess(record, token, life, now))
    ensures OwnRecord(issued, userID, record.sessionID, RotateRefresh(record, token, life, now))
  {
  }

  lemma AdvanceOwnCache(lives: Lives, s: State, id: nat, now: int, tokens: (string, string), sid: string,
                        issued': map<string, Owner>)
    requires Own(s) && Enabled(s, Advance(id, now, tokens, sid))
    requires issued' == AdvanceThread(lives, s, id, now, tokens, sid).issued
    requires OwnCache(issued', s.cache) && OwnThread(issued', s.threads[id])
    ensures OwnCache(issued', AdvanceThread(lives, s, id, now, tokens, sid).cache)
  {
    hide OwnCache, OwnRecord;
    var c := s.cache;
    match s.threads[id]
    case LoginStart(userID, sessionID) =>
      StringOpsKeepOwn(issued', c, MarkerKey(userID, sessionID), MaxInt(lives.access, lives.refresh), now);
    case LoginSave(userID, record) => SetFieldKeepsOwn(issued', c, userID, record, now);
    case RotateStart(userID, sessionID, _) => StringOpsKeepOwn(issued', c, MarkerKey(userID, sessionID), 0, now);
    case RotateRead(userID, sessionID, _) => HashOpsKeepOwn(issued', c, IndexKey(userID), sid, now);
    case RotateSave(userID, sessionID, kind, record) =>
      RotatedOwn(lives, s, id, now, tokens, sid, issued');
      SetFieldKeepsOwn(issued', c, userID, RotatedRecord(lives, record, kind, tokens.0, now), now);
    case RotateExtend(userID, sessionID, record) =>
      StringOpsKeepOwn(issued', c, MarkerKey(userID, sessionID), MaxInt(record.accessExpiresAt, record.refreshExpiresAt) - now, now);
    case RevokeStart(userID, sessionID) => StringOpsKeepOwn(issued', c, MarkerKey(userID, sessionID), 0, now);
    case RevokeIndex(userID, sessionID) => HashOpsKeepOwn(issued', c, IndexKey(userID), sessionID, now);
    case SessionlessStart(userID, kind) =>
      SetTokenKeepsOwn(issued', c, userID, kind, tokens.0, LifeOf(lives, kind), now);
    case CheckStart(userID, _, kind) => StringOpsKeepOwn(issued', c, Key0(userID, kind), 0, now);
    case ListStart(userID, _) => HashOpsKeepOwn(issued', c, IndexKey(userID), sid, now);
    case ListLoop(userID, _, _, _) => StringOpsKeepOwn(issued', c, MarkerKey(userID, sid), 0, now);
    case ListDrop(userID, _, dropped, _, _) => HashOpsKeepOwn(issued', c, IndexKey(userID), dropped, now);
    case _ =>
  }

  lemma RotatedOwn(lives: Lives, s: State, id: nat, now: int, tokens: (string, string), sid: string,
                   issued': map<string, Owner>)
    requires Enabled(s, Advance(id, now, tokens, sid)) && s.threads[id].RotateSave?
    requires issued' == AdvanceThread(lives, s, id, now, tokens, sid).issued && OwnThread(issued', s.threads[id])
    ensures var t := s.threads[id];
            var rotated := RotatedRecord(lives, t.record, t.kind, tokens.0, now);
            OwnRecord(issued', t.userID, rotated.sessionID, rotated) && rotated.sessionID == t.sessionID
  {
    var t := s.threads[id];
    RotationOwn(issued', t.userID, t.record, t.kind, tokens.0, LifeOf(lives, t.kind), now);
  }

  /** A listing keeps its records its own, whichever entry it looks at and however it ends. */
  lemma ListLoopOwn(issued: map<string, Owner>, userID: int, purpose: Purpose,
                    pending: map<string, TokenSession>, sessions: map<string, TokenSession>, sid: string, now: int)
    requires OwnThread(issued, ListLoop(userID, purpose, pending, sessions))
    ensures sid in pending ==>
              && OwnThread(issued, ListLoop(userID, purpose, pending - {sid}, sessions[sid := pending[sid]]))
              && OwnThread(issued, ListDrop(userID, purpose, sid, pending - {sid}, sessions))
    ensures OwnThread(issued, Verdict(userID, purpose, sessions, now))
  {
    VerdictOwner(issued, userID, purpose, sessions, now);
    hide OwnRecord, Accepts;
  }

  /** A login's record holds the two tokens just issued. */
  lemma LoginStartOwn(lives: Lives, s: State, id: nat, now: int, tokens: (string, string), sid: string,
                      issued': map<string, Owner>)
    requires Own(s) && Enabled(s, Advance(id, now, tokens, sid))
    requires issued' == AdvanceThread(lives, s, id, now, tokens, sid).issued
    requires OwnCache(issued', s.cache) && OwnThread(issued', s.threads[id])
    requires s.threads[id].LoginStart?
    ensures OwnThread(issued', AdvanceThread(lives, s, id, now, tokens, sid).threads[id])
  {
    hide SetStr, Touched, TouchedHash, SetField, DelField, Verdict, OwnCache, OwnRecords;
  }

  /** A record read from the index is one of its session's. */
  lemma ReadOwn(lives: Lives, s: State, id: nat, now: int, tokens: (string, string), sid: string,
                issued': map<string, Owner>)
    requires Own(s) && Enabled(s, Advance(id, now, tokens, sid))
    requires issued' == AdvanceThread(lives, s, id, now, tokens, sid).issued
    requires OwnCache(issued', s.cache) && OwnThread(issued', s.threads[id])
    requires s.threads[id].RotateRead? || s.threads[id].ListStart?
    ensures OwnThread(issued', AdvanceThread(lives, s, id, now, tokens, sid).threads[id])
  {
    var c, t := s.cache, s.threads[id];
    if Fields(c, IndexKey(t.userID), now).Some? { FieldsOwn(issued', c, t.userID, now); }
    hide OwnRecord, OwnCache, TouchedHash, Fields, Verdict;
  }

  lemma RotateSaveOwn(lives: Lives, s: State, id: nat, now: int, tokens: (string, string), sid: string,
                      issued': map<string, Owner>)
    requires Own(s) && Enabled(s, Advance(id, now, tokens, sid))
    requires issued' == AdvanceThread(lives, s, id, now, tokens, sid).issued
    requires OwnCache(issued', s.cache) && OwnThread(issued', s.threads[id])
    requires s.threads[id].RotateSave?
    ensures OwnThread(issued', AdvanceThread(lives, s, id, now, tokens, sid).threads[id])
  {
    RotatedOwn(lives, s, id, now, tokens, sid, issued');
    hide OwnRecord, OwnCache, SetField, RotatedRecord, Verdict;
  }

  lemma ListLoopThreadOwn(lives: Lives, s: State, id: nat, now: int, tokens: (string, string), sid: string,
                          issued': map<string, Owner>)
    requires Own(s) && Enabled(s, Advance(id, now, tokens, sid))
    requires issued' == AdvanceThread(lives, s, id, now, tokens, sid).issued
    requires OwnCache(issued', s.cache) && OwnThread(issued', s.threads[id])
    requires s.threads[id].ListLoop?
    ensures OwnThread(issued', AdvanceThread(lives, s, id, now, tokens, sid).threads[id])
  {
    var t := s.threads[id];
    ListLoopOwn(issued', t.userID, t.purpose, t.pending, t.sessions, sid, now);
    hide OwnThread, OwnCache, Touched, Alive, Verdict;
  }

  lemma CheckOwn(lives: Lives, s: State, id: nat, now: int, tokens: (string, string), sid: string,
                 issued': map<string, Owner>)
    requires Own(s) && Enabled(s, Advance(id, now, tokens, sid))
    requires issued' == AdvanceThread(lives, s, id, now, tokens, sid).issued
    requires OwnCache(issued', s.cache) && OwnThread(issued', s.threads[id])
    requires s.threads[id].CheckStart?
    ensures OwnThread(issued', AdvanceThread(lives, s, id, now, tokens, sid).threads[id])
  {
    var c, t := s.cache, s.threads[id];
    if Stored(c, Key0(t.userID, t.kind), t.token, now) {
      assert Owned(issued', c.strItems[Key0(t.userID, t.kind)].value, Sessionless(t.userID));
    }
    hide OwnRecord, OwnRecords, Touched, Verdict;
  }

  lemma AdvanceOwnThread(lives: Lives, s: State, id: nat, now: int, tokens: (string, string), sid: string,
                         issued': map<string, Owner>)
    requires Own(s) && Enabled(s, Advance(id, now, tokens, sid))
    requires issued' == AdvanceThread(lives, s, id, now, tokens, sid).issued
    requires OwnCache(issued', s.cache) && OwnThread(issued', s.threads[id])
    ensures OwnThread(issued', AdvanceThread(lives, s, id, now, tokens, sid).threads[id])
  {
    var t := s.threads[id];
    if t.LoginStart? {
      LoginStartOwn(lives, s, id, now, tokens, sid, issued');
    } else if t.RotateRead? || t.ListStart? {
      ReadOwn(lives, s, id, now, tokens, sid, issued');
    } else if t.RotateSave? {
      RotateSaveOwn(lives, s, id, now, tokens, sid, issued');
    } else if t.ListLoop? {
      ListLoopThreadOwn(lives, s, id, now, tokens, sid, issued');
    } else if t.CheckStart? {
      CheckOwn(lives, s, id, now, tokens, sid, issued');
    } else {
      hide Own, OwnCache, OwnRecord, OwnRecords, SetStr, Touched, TouchedHash, SetField, DelField, DelStr, ExpireStr, Verdict;
    }
  }

  lemma AdvanceKeepsOwn(lives: Lives, s: State, id: nat, now: int, tokens: (string, string), sid: string)
    requires Own(s) && Enabled(s, Advance(id, now, tokens, sid))
    ensures Own(AdvanceThread(lives, s, id, now, tokens, sid))
  {
    var s' := AdvanceThread(lives, s, id, now, tokens, sid);
    assert Extends(s.issued, s'.issued) && "" !in s'.issued && s'.threads == s.threads[id := s'.threads[id]];
    OwnGrows(s.issued, s'.issued, s.cache, s.threads);
    hide OwnThread, OwnCache;
    AdvanceOwnCache(lives, s, id, now, tokens, sid, s'.issued);
    AdvanceOwnThread(lives, s, id, now, tokens, sid, s'.issued);
  }

  lemma NextKeepsOwn(lives: Lives, s: State, step: Step)
    requires Own(s) && Enabled(s, step)
    ensures Own(Next(lives, s, step))
  {
    if step.Advance? { AdvanceKeepsOwn(lives, s, step.id, step.now, step.tokens, step.sid); }
  }

  // ---------- revocation is final ----------

  /** The step by which a login (re-)issues the session: it sets the marker. */
  predicate Reissues(s: State, step: Step, userID: int, sessionID: string) {
    step.Advance? && step.id in s.threads && s.threads[step.id] == LoginStart(userID, sessionID)
  }

  predicate NeverReissued(lives: Lives, s: State, steps: seq<Step>, userID: int, sessionID: string)
    requires Interleaving(lives, s, steps)
    decreases |steps|
  {
    steps == [] ||
    (!Reissues(s, steps[0], userID, sessionID)
     && NeverReissued(lives, Next(lives, s, steps[0]), steps[1..], userID, sessionID))
  }

  /** What a thread started after the revocation may know: never the revoked session. */
  predicate Unaware(issued: map<string, Owner>, t: Thread, userID: int, sessionID: string) {
    match t
    case ListLoop(u, _, _, sessions) => u == userID ==> sessionID !in sessions
    case ListDrop(u, _, _, _, sessions) => u == userID ==> sessionID !in sessions
    case Listed(u, sessions) => u == userID ==> sessionID !in sessions
    case Accepted(_, token, _) => !Owned(issued, token, OfSession(userID, sessionID))
    case _ => true
  }

  /** The marker is gone, and every thread not in `before` is unaware of the session. */
  ghost predicate Revoked(s: State, before: set<nat>, userID: int, sessionID: string) {
    && MarkerKey(userID, sessionID) !in s.cache.strItems
    && before <= s.threads.Keys
    && (forall id :: id in s.threads && id !in before ==> Unaware(s.issued, s.threads[id], userID, sessionID))
  }

  /** A collected record that accepts a token makes its own session the token's owner. */
  lemma VerdictOwner(issued: map<string, Owner>, userID: int, purpose: Purpose, sessions: map<string, TokenSession>,
                     now: int)
    requires OwnRecords(issued, userID, sessions) && (purpose.Validate? ==> purpose.token != "")
    ensures var verdict := Verdict(userID, purpose, sessions, now);
            verdict.Accepted? ==>
              exists sid :: sid in sessions && Owned(issued, purpose.token, OfSession(userID, sid)) && verdict.token == purpose.token
  {
    var verdict := Verdict(userID, purpose, sessions, now);
    if verdict.Accepted? {
      var sid :| sid in sessions && Accepts(sessions[sid], purpose.token, purpose.kind, now);
      assert OwnRecord(issued, userID, sid, sessions[sid]);
      assert Owned(issued, purpose.token, OfSession(userID, sid));
    }
  }

  /** No step takes a token from its owner, and every call knows only issued tokens. */
  lemma OtherTokensNew(lives: Lives, s: State, id: nat, now: int, tokens: (string, string), sid: string)
    requires Own(s) && Enabled(s, Advance(id, now, tokens, sid))
    ensures Extends(s.issued, AdvanceThread(lives, s, id, now, tokens, sid).issued)
    ensures forall other :: other in s.threads ==> OwnThread(s.issued, s.threads[other])
  {
    hide OwnThread, OwnCache;
  }

  /** Only a login creates a marker. */
  lemma MarkerStaysGone(lives: Lives, s: State, id: nat, now: int, tokens: (string, string), sid: string,
                        userID: int, sessionID: string)
    requires Enabled(s, Advance(id, now, tokens, sid)) && s.threads[id] != LoginStart(userID, sessionID)
    requires MarkerKey(userID, sessionID) !in s.cache.strItems
    ensures MarkerKey(userID, sessionID) !in AdvanceThread(lives, s, id, now, tokens, sid).cache.strItems
  {
    hide NewSession, Verdict, Accepts, RotatedRecord, Alive;
  }

  /** A call that does not know of the session does not learn of it without its marker. */
  lemma StaysUnaware(lives: Lives, s: State, id: nat, now: int, tokens: (string, string), sid: string,
                     userID: int, sessionID: string)
    requires Own(s) && Enabled(s, Advance(id, now, tokens, sid)) && MarkerKey(userID, sessionID) !in s.cache.strItems
    requires Unaware(s.issued, s.threads[id], userID, sessionID)
    ensures var s' := AdvanceThread(lives, s, id, now, tokens, sid); Unaware(s'.issued, s'.threads[id], userID, sessionID)
  {
    var t := s.threads[id];
    assert OwnThread(s.issued, t);
    if t.ListLoop? { VerdictOwner(s.issued, t.userID, t.purpose, t.sessions, now); }
    hide OwnRecord, OwnRecords, NewSession, Accepts, RotatedRecord;
    hide SetStr, SetField, DelField, ExpireStr, DelStr, Touched, TouchedHash;
  }

  lemma AdvanceKeepsRevoked(lives: Lives, s: State, id: nat, now: int, tokens: (string, string), sid: string,
                            before: set<nat>, userID: int, sessionID: string)
    requires Own(s) && Enabled(s, Advance(id, now, tokens, sid)) && Revoked(s, before, userID, sessionID)
    requires s.threads[id] != LoginStart(userID, sessionID)
    ensures Revoked(AdvanceThread(lives, s, id, now, tokens, sid), before, userID, sessionID)
  {
    var s' := AdvanceThread(lives, s, id, now, tokens, sid);
    assert s'.threads == s.threads[id := s'.threads[id]];
    OtherTokensNew(lives, s, id, now, tokens, sid);
    hide AdvanceThread, Own;
    MarkerStaysGone(lives, s, id, now, tokens, sid, userID, sessionID);
    if id !in before { StaysUnaware(lives, s, id, now, tokens, sid, userID, sessionID); }
    forall other | other in s'.threads && other !in before && other != id
      ensures Unaware(s'.issued, s'.threads[other], userID, sessionID)
    {
      assert Unaware(s.issued, s.threads[other], userID, sessionID) && OwnThread(s.issued, s.threads[other]);
    }
  }

  lemma NextKeepsRevoked(lives: Lives, s: State, step: Step, before: set<nat>, userID: int, sessionID: string)
    requires Own(s) && Enabled(s, step) && Revoked(s, before, userID, sessionID)
    requires !Reissues(s, step, userID, sessionID)
    ensures Revoked(Next(lives, s, step), before, userID, sessionID)
  {
    if step.Advance? {
      AdvanceKeepsRevoked(lives, s, step.id, step.now, step.tokens, step.sid, before, userID, sessionID);
    }
  }

  lemma {:induction false} RunKeepsRevoked(lives: Lives, s: State, steps: seq<Step>, before: set<nat>, userID: int,
                                           sessionID: string)
    requires Own(s) && Revoked(s, before, userID, sessionID)
    requires Interleaving(lives, s, steps) && NeverReissued(lives, s, steps, userID, sessionID)
    ensures Revoked(After(lives, s, steps), before, userID, sessionID)
    ensures Own(After(lives, s, steps))
    decreases |steps|
  {
    hide Own, Revoked, Enabled, Next;
    if steps == [] {
    } else {
      NextKeepsOwn(lives, s, steps[0]);
      NextKeepsRevoked(lives, s, steps[0], before, userID, sessionID);
      RunKeepsRevoked(lives, Next(lives, s, steps[0]), steps[1..], before, userID, sessionID);
    }
  }

  lemma {:induction false} ReachableOwn(lives: Lives, s: State, steps: seq<Step>)
    requires Own(s) && Interleaving(lives, s, steps)
    ensures Own(After(lives, s, steps))
    decreases |steps|
  {
    hide Own, Enabled, Next;
    if steps == [] {
    } else {
      NextKeepsOwn(lives, s, steps[0]);
      ReachableOwn(lives, Next(lives, s, steps[0]), steps[1..]);
    }
  }

  /**
   Revocation is final.  Take any interleaving, then the step of some revocation that deletes the
   marker, then any further interleaving in which no login sets that marker again.  No validation
   started after the deletion has accepted a token issued to the session, and no listing started
   after it shows the session, even if a rotation in flight has written the index entry back.
   */
  lemma RevocationIsFinal(lives: Lives, earlier: seq<Step>, revoke: nat, now: int, later: seq<Step>,
                          userID: int, sessionID: string, id: nat)
    requires Interleaving(lives, INITIAL, earlier)
    requires var s := After(lives, INITIAL, earlier);
             && revoke in s.threads && s.threads[revoke] == RevokeStart(userID, sessionID)
             && var s1 := Next(lives, s, Advance(revoke, now, ("", ""), ""));
                && Interleaving(lives, s1, later) && NeverReissued(lives, s1, later, userID, sessionID)
                && id !in s1.threads && id in After(lives, s1, later).threads
    ensures var s1 := Next(lives, After(lives, INITIAL, earlier), Advance(revoke, now, ("", ""), ""));
            var last := After(lives, s1, later);
            && (last.threads[id].Accepted? ==> !Owned(last.issued, last.threads[id].token, OfSession(userID, sessionID)))
            && (last.threads[id].Listed? && last.threads[id].userID == userID ==> sessionID !in last.threads[id].sessions)
  {
    ReachableOwn(lives, INITIAL, earlier);
    var s := After(lives, INITIAL, earlier);
    var s1 := Next(lives, s, Advance(revoke, now, ("", ""), ""));
    NextKeepsOwn(lives, s, Advance(revoke, now, ("", ""), ""));
    RunKeepsRevoked(lives, s1, later, s1.threads.Keys, userID, sessionID);
  }
}
