/**
 Token-manager calls whose steps nothing interrupts (auth/data/user_token.go): step by step they do to the cache
 what the methods of the token manager do in one go, so both models speak of the same calls.
 */
module SessionCallsAlone {
  import opened Wrappers
  import opened MemoryCache
  import opened SessionTokens
  import opened SessionProtocol
  import opened SessionOverlap
  import opened SessionValidations

  /** The steps run a call to its end, and leave this cache. */
  ghost predicate Does(lives: Lives, s: State, steps: seq<Step>, id: nat, now: int, cache: SessionCache) {
    && Interleaving(lives, s, steps) && Alone(steps, id, now)
    && var last := After(lives, s, steps);
       && id in last.threads && last.threads[id].Finished? && last.cache == cache && last.indexOwner == s.indexOwner
  }

  /** One step more, before the others. */
  lemma DoesBefore(lives: Lives, s: State, step: Step, s': State, rest: seq<Step>, id: nat, now: int,
                   cache: SessionCache)
    requires Enabled(s, step) && step.Advance? && step.id == id && step.now == now
    requires s' == Next(lives, s, step) && s'.indexOwner == s.indexOwner && Does(lives, s', rest, id, now, cache)
    ensures Does(lives, s, [step] + rest, id, now, cache)
  {
    hide Next, Enabled;
    Prepend(lives, s, step, s', rest);
  }

  lemma DoesNothing(lives: Lives, s: State, id: nat, now: int)
    requires id in s.threads && s.threads[id].Finished?
    ensures Does(lives, s, [], id, now, s.cache)
  {
  }

  function At(id: nat, now: int, tokens: (string, string)): Step {
    Advance(id, now, tokens, "")
  }

  const NO_TOKENS := ("", "")

  /** Any number of calls of every kind can start at any time. */
  lemma EveryCallStarts(s: State, id: nat, userID: int, sessionID: string, kind: Kind, token: string)
    requires id !in s.threads && token != ""
    ensures forall t :: t in {LoginStart(userID, sessionID), RotateStart(userID, sessionID, kind), RevokeStart(userID, sessionID),
                              SessionlessStart(userID, kind), CheckStart(userID, token, kind), ListStart(userID, ListOnly)} ==>
              Enabled(s, Spawn(id, t))
  {
  }

  lemma LoginAlone(lives: Lives, s: State, id: nat, userID: int, sessionID: string, access: string, refresh: string,
                   now: int)
    requires id in s.threads && s.threads[id] == LoginStart(userID, sessionID) && IndexFree(s) && sessionID != ""
    requires Unissued(s, access) && Unissued(s, refresh) && access != refresh
    ensures Does(lives, s, [At(id, now, (access, refresh))] + [At(id, now, NO_TOKENS)], id, now,
                 LoggedIn(s.cache, lives, userID, sessionID, access, refresh, now))
  {
    var first, second := At(id, now, (access, refresh)), At(id, now, NO_TOKENS);
    hide NewSession, SetStr, SetField, Does;
    var s1 := Next(lives, s, first);
    var s2 := Next(lives, s1, second);
    assert s1.threads[id]
        == LoginSave(userID, NewSession(sessionID, access, refresh, lives.access, lives.refresh, now));
    NewSessionID(sessionID, access, refresh, lives, now);
    assert s2.cache == LoggedIn(s.cache, lives, userID, sessionID, access, refresh, now) && s2.threads[id] == Finished;
    DoesNothing(lives, s2, id, now);
    DoesBefore(lives, s1, second, s2, [], id, now, s2.cache);
    assert [second] + [] == [second];
    DoesBefore(lives, s, first, s1, [second], id, now, s2.cache);
  }

  lemma NewSessionID(sessionID: string, access: string, refresh: string, lives: Lives, now: int)
    ensures NewSession(sessionID, access, refresh, lives.access, lives.refresh, now).sessionID == sessionID
  {
  }

  /** A rotation, whether it succeeds or not. */
  lemma RotateAlone(lives: Lives, s: State, id: nat, userID: int, sessionID: string, kind: Kind, token: string,
                    now: int)
    returns (steps: seq<Step>)
    requires id in s.threads && s.threads[id] == RotateStart(userID, sessionID, kind) && IndexFree(s) && sessionID != ""
    requires Unissued(s, token)
    ensures Does(lives, s, steps, id, now, Rotated(s.cache, lives, userID, sessionID, kind, token, now).1)
  {
    var step := At(id, now, NO_TOKENS);
    var s1 := Next(lives, s, step);
    if !Alive(s.cache, MarkerKey(userID, sessionID), now) {
      assert s1.threads[id] == Finished;
      ListedExactly(s.cache, userID, sessionID, now);
      DoesNothing(lives, s1, id, now);
      DoesBefore(lives, s, step, s1, [], id, now, s1.cache);
      steps := [step] + [];
    } else {
      assert s1.cache == s.cache && s1.threads[id] == RotateRead(userID, sessionID, kind) && s1.issued == s.issued;
      var rest := ReadAlone(lives, s1, id, userID, sessionID, kind, token, now);
      DoesBefore(lives, s, step, s1, rest, id, now, Rotated(s.cache, lives, userID, sessionID, kind, token, now).1);
      steps := [step] + rest;
    }
  }

  lemma ListedExactly(c: SessionCache, userID: int, sessionID: string, now: int)
    ensures sessionID in Sessions(c, userID, now) <==>
            var fields := Fields(c, IndexKey(userID), now);
            Alive(c, MarkerKey(userID, sessionID), now) && fields.Some? && sessionID in fields.value
    ensures sessionID in Sessions(c, userID, now) ==>
              Sessions(c, userID, now)[sessionID] == Fields(c, IndexKey(userID), now).value[sessionID]
              && TouchedHash(c, IndexKey(userID), now) == c
  {
  }

  lemma ReadAlone(lives: Lives, s: State, id: nat, userID: int, sessionID: string, kind: Kind, token: string, now: int)
    returns (steps: seq<Step>)
    requires id in s.threads && s.threads[id] == RotateRead(userID, sessionID, kind) && IndexFree(s) && sessionID != ""
    requires Unissued(s, token) && Alive(s.cache, MarkerKey(userID, sessionID), now)
    ensures Does(lives, s, steps, id, now, Rotated(s.cache, lives, userID, sessionID, kind, token, now).1)
  {
    var step := At(id, now, NO_TOKENS);
    var s1 := Next(lives, s, step);
    ListedExactly(s.cache, userID, sessionID, now);
    hide Sessions, Alive, RotatedRecord, Does;
    if sessionID in Sessions(s.cache, userID, now) {
      var record := Sessions(s.cache, userID, now)[sessionID];
      assert s1.cache == s.cache && s1.threads[id] == RotateSave(userID, sessionID, kind, record) && s1.issued == s.issued;
      var rest := SaveAlone(lives, s1, id, userID, sessionID, kind, record, token, now);
      DoesBefore(lives, s, step, s1, rest, id, now, Rotated(s.cache, lives, userID, sessionID, kind, token, now).1);
      steps := [step] + rest;
    } else {
      assert s1.threads[id] == Finished;
      DoesNothing(lives, s1, id, now);
      DoesBefore(lives, s, step, s1, [], id, now, s1.cache);
      steps := [step] + [];
    }
  }

  lemma SaveAlone(lives: Lives, s: State, id: nat, userID: int, sessionID: string, kind: Kind, record: TokenSession,
                  token: string, now: int)
    returns (steps: seq<Step>)
    requires id in s.threads && s.threads[id] == RotateSave(userID, sessionID, kind, record) && IndexFree(s) && Unissued(s, token)
    ensures Does(lives, s, steps, id, now,
                 Renewed(s.cache, userID, sessionID, RotatedRecord(lives, record, kind, token, now), now))
  {
    var first, second := At(id, now, (token, "")), At(id, now, NO_TOKENS);
    hide RotatedRecord, SetField, ExpireStr, Does;
    var s1 := Next(lives, s, first);
    var s2 := Next(lives, s1, second);
    var rotated := RotatedRecord(lives, record, kind, token, now);
    assert s1.threads[id] == RotateExtend(userID, sessionID, rotated);
    assert s2.cache == Renewed(s.cache, userID, sessionID, rotated, now) && s2.threads[id] == Finished;
    DoesNothing(lives, s2, id, now);
    DoesBefore(lives, s1, second, s2, [], id, now, s2.cache);
    DoesBefore(lives, s, first, s1, [second] + [], id, now, s2.cache);
    steps := [first] + ([second] + []);
  }

  lemma RevokeAlone(lives: Lives, s: State, id: nat, userID: int, sessionID: string, now: int)
    requires id in s.threads && s.threads[id] == RevokeStart(userID, sessionID) && IndexFree(s)
    ensures Does(lives, s, [At(id, now, NO_TOKENS)] + [At(id, now, NO_TOKENS)], id, now,
                 SessionTokens.Revoked(s.cache, userID, sessionID, now))
  {
    var step := At(id, now, NO_TOKENS);
    hide DelStr, DelField, Does;
    var s1 := Next(lives, s, step);
    var s2 := Next(lives, s1, step);
    assert s1.threads[id] == RevokeIndex(userID, sessionID);
    assert s2.cache == SessionTokens.Revoked(s.cache, userID, sessionID, now) && s2.threads[id] == Finished;
    DoesNothing(lives, s2, id, now);
    DoesBefore(lives, s1, step, s2, [], id, now, s2.cache);
    assert [step] + [] == [step];
    DoesBefore(lives, s, step, s1, [step], id, now, s2.cache);
  }

  /** A token of no session is set in one step. */
  lemma SessionlessAlone(lives: Lives, s: State, id: nat, userID: int, kind: Kind, token: string, now: int)
    requires id in s.threads && s.threads[id] == SessionlessStart(userID, kind) && Unissued(s, token)
    ensures Does(lives, s, [At(id, now, (token, ""))], id, now,
                 Rotated(s.cache, lives, userID, "", kind, token, now).1)
  {
    var step := At(id, now, (token, ""));
    var s1 := Next(lives, s, step);
    DoesNothing(lives, s1, id, now);
    DoesBefore(lives, s, step, s1, [], id, now, s1.cache);
    assert [step] + [] == [step];
  }
}
