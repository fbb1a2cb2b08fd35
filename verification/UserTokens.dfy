/**
 The token manager (auth/data/user_token.go) run call by call over the in-process cache.  Token
 texts come from the signer and the UUID generator and are parameters; `now` is the clock value
 of the call.  Runs of such calls are the subject of SessionRuns, interleaved calls of SessionProtocol.
 */
module UserTokens {
  import opened Wrappers
  import opened MemoryCache
  import opened SessionTokens

  class UserToken {
    const cache: Memory<Key, TokenSession>
    const lives: Lives

    constructor (cache: Memory<Key, TokenSession>, lives: Lives)
      ensures this.cache == cache && this.lives == lives
    {
      this.cache, this.lives := cache, lives;
    }

    /**
     A login: the marker is set first, then the record is saved under the session's own field. Without a
     session ID the two tokens are stored under the user's own keys. An empty access token means the signer failed.
     */
    method GenerateTokenForSession(userID: int, sessionID: string, access: string, refresh: string, now: int)
      returns (ok: bool)
      modifies cache
      ensures ok == (access != "")
      ensures cache.View() == LoggedIn(old(cache.View()), lives, userID, sessionID, access, refresh, now)
      ensures ok && sessionID != "" ==>
                OnlySession(old(cache.View()), cache.View(), userID, sessionID, now)
      ensures ok && HashesStay(old(cache.View())) ==>
                && (forall t :: now <= t < now + lives.access ==> Valid(cache.View(), userID, Access, access, t))
                && (refresh != "" ==>
                      forall t :: now <= t < now + lives.refresh ==> Valid(cache.View(), userID, Refresh, refresh, t))
    {
      if access == "" {
        return false;
      }
      if sessionID == "" {
        cache.Set(AccessKey(userID), access, lives.access, now);
        cache.Set(RefreshKey(userID), refresh, lives.refresh, now);
      } else {
        cache.Set(MarkerKey(userID, sessionID), "1", MaxInt(lives.access, lives.refresh), now);
        cache.HSet(IndexKey(userID), sessionID, NewSession(sessionID, access, refresh, lives.access, lives.refresh, now), now);
      }
      LoginObserved(old(cache.View()), lives, userID, sessionID, access, refresh, now);
      return true;
    }

    /** The record of a session whose marker is alive. */
    method GetTokenSession(userID: int, sessionID: string, now: int) returns (session: Option<TokenSession>)
      modifies cache
      ensures SameFrom(old(cache.View()), cache.View(), now)
      ensures cache.View() == LookedUp(old(cache.View()), userID, sessionID, now)
      ensures var live := Sessions(old(cache.View()), userID, now);
              session == if sessionID in live then Some(live[sessionID]) else None
      ensures session.Some? ==> cache.View() == old(cache.View())
    {
      var marked := cache.Exists(MarkerKey(userID, sessionID), now);
      if !marked {
        return None;
      }
      var found := cache.HGet(IndexKey(userID), sessionID, now);
      return if found.Ok? then Some(found.value) else None;
    }

    /** Rotation of the access token: saves the rotated record and only extends an existing marker. */
    method GenerateAccessTokenForSession(userID: int, sessionID: string, access: string, now: int) returns (ok: bool)
      modifies cache
      ensures (ok, cache.View()) == Rotated(old(cache.View()), lives, userID, sessionID, Access, access, now)
      ensures !ok ==> SameFrom(old(cache.View()), cache.View(), now)
      ensures sessionID != "" ==> (ok <==> access != "" && sessionID in Sessions(old(cache.View()), userID, now))
    {
      var session := None;
      if sessionID != "" {
        session := GetTokenSession(userID, sessionID, now);
        if session.None? {
          return false;
        }
      }
      if access == "" {
        return false;
      }
      if sessionID == "" {
        cache.Set(AccessKey(userID), access, lives.access, now);
        return true;
      }
      var rotated := RotateAccess(session.value, access, lives.access, now);
      cache.HSet(IndexKey(userID), rotated.sessionID, rotated, now);
      var error := cache.Expire(MarkerKey(userID, sessionID), MaxInt(rotated.accessExpiresAt, rotated.refreshExpiresAt) - now, now);
      return true;
    }

    method GenerateRefreshTokenForSession(userID: int, sessionID: string, refresh: string, now: int) returns (ok: bool)
      modifies cache
      ensures (ok, cache.View()) == Rotated(old(cache.View()), lives, userID, sessionID, Refresh, refresh, now)
      ensures !ok ==> SameFrom(old(cache.View()), cache.View(), now)
      ensures sessionID != "" ==> (ok <==> refresh != "" && sessionID in Sessions(old(cache.View()), userID, now))
    {
      var session := None;
      if sessionID != "" {
        session := GetTokenSession(userID, sessionID, now);
        if session.None? {
          return false;
        }
      }
      if refresh == "" {
        return false;
      }
      if sessionID == "" {
        cache.Set(RefreshKey(userID), refresh, lives.refresh, now);
        return true;
      }
      var rotated := RotateRefresh(session.value, refresh, lives.refresh, now);
      cache.HSet(IndexKey(userID), rotated.sessionID, rotated, now);
      var error := cache.Expire(MarkerKey(userID, sessionID), MaxInt(rotated.accessExpiresAt, rotated.refreshExpiresAt) - now, now);
      return true;
    }

    /** Revocation of one session; without a session ID, of everything the user has. */
    method RemoveTokenForSession(userID: int, sessionID: string, now: int)
      modifies cache
      ensures cache.View() == if sessionID == "" then Removed(old(cache.View()), userID, now)
                              else Revoked(old(cache.View()), userID, sessionID, now)
      ensures sessionID != "" ==> forall t :: sessionID !in Sessions(cache.View(), userID, t)
      ensures sessionID == "" ==> NothingValid(cache.View(), userID)
    {
      if sessionID == "" {
        RemoveToken(userID, now);
      } else {
        RemoveSession(userID, sessionID, now);
      }
    }

    method RemoveSession(userID: int, sessionID: string, now: int)
      modifies cache
      ensures cache.View() == Revoked(old(cache.View()), userID, sessionID, now)
    {
      cache.Del(MarkerKey(userID, sessionID));
      var error := cache.HDel(IndexKey(userID), sessionID, now);
    }

    /** The user's live sessions; entries whose marker is gone are removed from the index on the way. */
    method GetTokenSessions(userID: int, now: int) returns (sessions: map<string, TokenSession>)
      modifies cache
      ensures sessions == Sessions(old(cache.View()), userID, now)
      ensures cache.View() == Cleaned(old(cache.View()), userID, now)
    {
      var entries := cache.HGetAll(IndexKey(userID), now);
      if entries.Err? {
        return map[];
      }
      ghost var c := cache.View();
      var pending := entries.value.Keys;
      CleanedNothing(c, userID, now);
      assert pending - pending == {};
      sessions := map[];
      while pending != {}
        invariant pending <= entries.value.Keys
        invariant sessions == map sid | sid in entries.value && sid !in pending && Alive(c, MarkerKey(userID, sid), now)
                                :: entries.value[sid]
        invariant cache.View() == CleanedOf(c, userID, entries.value.Keys - pending, now)
      {
        var sid :| sid in pending;
        CleanedOneMore(c, userID, entries.value.Keys - pending, sid, now);
        assert entries.value.Keys - (pending - {sid}) == entries.value.Keys - pending + {sid};
        pending := pending - {sid};
        hide CleanedOf;
        var alive := cache.Exists(MarkerKey(userID, sid), now);
        if alive {
          sessions := sessions[sid := entries.value[sid]];
        } else {
          var error := cache.HDel(IndexKey(userID), sid, now);
        }
      }
      assert entries.value.Keys - pending == entries.value.Keys;
      assert sessions == Sessions(old(cache.View()), userID, now);
    }

    /** Removes every session of the user and the sessionless tokens: nothing of the user validates any more. */
    method RemoveToken(userID: int, now: int)
      modifies cache
      ensures cache.View() == Removed(old(cache.View()), userID, now)
      ensures NothingValid(cache.View(), userID)
    {
      var sessions := GetTokenSessions(userID, now);
      ghost var listed := cache.View();
      var pending := sessions.Keys;
      WithoutNothing(listed, userID);
      CleanedIndex(old(cache.View()), userID, now);
      assert sessions.Keys - pending == {};
      while pending != {}
        invariant pending <= sessions.Keys
        invariant cache.View() == WithoutSessions(listed, userID, sessions.Keys - pending)
      {
        var sid :| sid in pending;
        WithoutOneMore(listed, userID, sessions.Keys - pending, sid, now);
        assert sessions.Keys - (pending - {sid}) == sessions.Keys - pending + {sid};
        pending := pending - {sid};
        RemoveSession(userID, sid, now);
      }
      assert sessions.Keys - pending == sessions.Keys;
      cache.Del(AccessKey(userID));
      cache.Del(RefreshKey(userID));
      RemovedLeavesNothing(old(cache.View()), userID, now);
    }

    /** Whether some session accepts the token, one after the other. */
    method AnyAccepts(sessions: map<string, TokenSession>, kind: Kind, token: string, now: int) returns (accepted: bool)
      ensures accepted <==> exists sid :: sid in sessions && Accepts(sessions[sid], token, kind, now)
    {
      accepted := false;
      var pending := sessions.Keys;
      while pending != {} && !accepted
        invariant pending <= sessions.Keys
        invariant accepted ==> exists sid :: sid in sessions && Accepts(sessions[sid], token, kind, now)
        invariant !accepted ==> forall sid :: sid in sessions && sid !in pending ==> !Accepts(sessions[sid], token, kind, now)
      {
        var sid :| sid in pending;
        pending := pending - {sid};
        accepted := Accepts(sessions[sid], token, kind, now);
      }
    }

    /** Whether the user's own key, or some session, still has an unexpired token of the kind. */
    method IsExistToken(userID: int, kind: Kind, now: int) returns (exist: bool)
      modifies cache
      ensures exist <==> Exist(old(cache.View()), userID, kind, now)
      ensures SameFrom(old(cache.View()), cache.View(), now)
      ensures Alive(old(cache.View()), Key0(userID, kind), now) ==> cache.View() == old(cache.View())
    {
      TouchedSame(old(cache.View()), Key0(userID, kind), now);
      exist := cache.Exists(Key0(userID, kind), now);
      if exist {
        return;
      }
      ghost var c := cache.View();
      var sessions := GetTokenSessions(userID, now);
      CleanedSame(c, userID, now);
      SameFromTransitive(old(cache.View()), c, cache.View(), now);
      assert sessions == Sessions(old(cache.View()), userID, now);
      hide SameFrom, Sessions, Cleaned;
      var pending := sessions.Keys;
      while pending != {} && !exist
        invariant pending <= sessions.Keys
        invariant exist ==> exists sid :: sid in sessions && Unexpired(sessions[sid], kind, now)
        invariant !exist ==> forall sid :: sid in sessions && sid !in pending ==> !Unexpired(sessions[sid], kind, now)
      {
        var sid :| sid in pending;
        pending := pending - {sid};
        exist := Unexpired(sessions[sid], kind, now);
      }
    }

    /**
     The shape both validations share. The user's own key is looked at first, at `now`; everything after
     that happens at `later`, when a token found there may just have expired.
     */
    method IsTokenValid(userID: int, kind: Kind, token: string, now: int, later: int) returns (valid: bool)
      modifies cache
      ensures valid == Validated(old(cache.View()), userID, kind, token, now, later)
      ensures SameFrom(old(cache.View()), cache.View(), MaxInt(now, later))
      ensures now == later ==> valid == Valid(old(cache.View()), userID, kind, token, now)
      ensures now == later ==> cache.View() == Checked(old(cache.View()), userID, kind, token, now)
    {
      if token == "" {
        return false;
      }
      ghost var before, key := cache.View(), Key0(userID, kind);
      var stored := cache.Get(Key0(userID, kind), now);
      TouchedSame(before, key, now);
      ghost var c := cache.View();
      hide SameFrom, Sessions, Cleaned;
      SameFromLater(before, c, now, MaxInt(now, later));
      if stored.Ok? && stored.value == token {
        valid := IsExistToken(userID, kind, later);
        SameFromLater(c, cache.View(), later, MaxInt(now, later));
        SameFromTransitive(before, c, cache.View(), MaxInt(now, later));
        return;
      }
      var sessions := GetTokenSessions(userID, later);
      CleanedSame(c, userID, later);
      SameFromLater(c, cache.View(), later, MaxInt(now, later));
      SameFromTransitive(before, c, cache.View(), MaxInt(now, later));
      TouchedSessions(before, key, userID, now, later);
      valid := AnyAccepts(sessions, kind, token, later);
    }

    method IsAccessTokenValid(userID: int, token: string, now: int, later: int) returns (valid: bool)
      modifies cache
      ensures valid == Validated(old(cache.View()), userID, Access, token, now, later)
      ensures SameFrom(old(cache.View()), cache.View(), MaxInt(now, later))
      ensures now == later ==> valid == Valid(old(cache.View()), userID, Access, token, now)
    {
      valid := IsTokenValid(userID, Access, token, now, later);
    }

    method IsRefreshTokenValid(userID: int, token: string, now: int, later: int) returns (valid: bool)
      modifies cache
      ensures valid == Validated(old(cache.View()), userID, Refresh, token, now, later)
      ensures SameFrom(old(cache.View()), cache.View(), MaxInt(now, later))
      ensures now == later ==> valid == Valid(old(cache.View()), userID, Refresh, token, now)
    {
      valid := IsTokenValid(userID, Refresh, token, now, later);
    }
  }
}
