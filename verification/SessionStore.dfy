/** The authentication service's transactions over the session and token tables, each running alone. */
module SessionStore {
  import opened Wrappers
  import opened SessionRows
  import opened SessionProtocol

  class Store {
    var sessions: map<SessionId, Session>
    var tokens: map<TokenId, Token>
    var nextSession: SessionId
    var nextToken: TokenId

    constructor ()
      ensures Tables() == Db(map[], map[], 1, 1)
    {
      sessions, tokens, nextSession, nextToken := map[], map[], 1, 1;
    }

    ghost function Tables(): Db
      reads this
    {
      Db(sessions, tokens, nextSession, nextToken)
    }

    method InsertUserSession(user: UserId) returns (s: SessionId)
      modifies this
      ensures s == old(nextSession) && nextSession == s + 1
      ensures sessions == old(sessions)[s := Session(user, false)]
      ensures tokens == old(tokens) && nextToken == old(nextToken)
    {
      s := nextSession;
      sessions := sessions[s := Session(user, false)];
      nextSession := s + 1;
    }

    method IssueRefreshToken(
        user: UserId, session: SessionId, predecessor: Option<TokenId>, now: int) returns (t: TokenId)
      modifies this
      ensures t == old(nextToken) && nextToken == t + 1
      ensures tokens == old(tokens)[t := Token(user, session, now + TOKEN_LIFETIME, false, predecessor)]
      ensures sessions == old(sessions) && nextSession == old(nextSession)
    {
      t := nextToken;
      tokens := tokens[t := Token(user, session, now + TOKEN_LIFETIME, false, predecessor)];
      nextToken := t + 1;
    }

    /** Every login, registration and password change ends here. */
    method IssueAuthTokens(user: UserId, now: int) returns (t: TokenId)
      modifies this
      ensures t == old(nextToken) && Tables() == Issue(old(Tables()), user, now)
    {
      var session := InsertUserSession(user);
      t := IssueRefreshToken(user, session, None, now);
    }

    method RevokeSessionWithTokens(session: SessionId)
      modifies this
      ensures Tables() == Kill(old(Tables()), session, LiveTokensIn(old(Tables()), session))
    {
      var live := set t | t in tokens && tokens[t].session == session && !tokens[t].revoked;
      assert live == LiveTokensIn(Tables(), session);
      sessions := RevokeSessions(sessions, {session});
      tokens := RevokeTokens(tokens, live);
    }

    /** The refresh transaction.  On reuse it returns an error value instead of throwing, so that the
        revocation commits. */
    method Refresh(t: TokenId, now: int, userFound: bool) returns (r: Outcome)
      modifies this
      ensures (r, Tables()) == RefreshAlone(old(Tables()), t, now, userFound)
      ensures r.Rotated? <==>
        && t in old(tokens) && old(tokens)[t].session in old(sessions) && !old(tokens)[t].revoked
        && now <= old(tokens)[t].expiresAt && !old(sessions)[old(tokens)[t].session].revoked && userFound
      ensures r == InvalidToken || r == TokenExpired || r == SessionRevoked ==> Tables() == old(Tables())
      ensures r.Reuse? ==> t in tokens && tokens[t].session in sessions && sessions[tokens[t].session].revoked
                           && forall u :: u in tokens && tokens[u].session == tokens[t].session ==> tokens[u].revoked
    {
      if t !in tokens || tokens[t].session !in sessions {
        return InvalidToken;
      }
      var row := tokens[t];
      if row.revoked {
        RevokeSessionWithTokens(row.session);
        return Reuse;
      }
      if row.expiresAt < now {
        return TokenExpired;
      }
      if sessions[row.session].revoked {
        return SessionRevoked;
      }
      if !userFound {
        RevokeSessionWithTokens(row.session);
        return Unauthorized;
      }
      tokens := RevokeTokens(tokens, {t});
      var next := IssueRefreshToken(row.user, row.session, Some(t), now);
      return Rotated(next);
    }

    /** Logging out revokes the presented token and nothing else; an unknown token is ignored. */
    method Logout(t: TokenId)
      modifies this`tokens
      ensures tokens == RevokeTokens(old(tokens), {t})
      ensures tokens.Keys == old(tokens).Keys && forall k :: k in tokens ==>
        tokens[k] == if k == t then old(tokens)[k].(revoked := true) else old(tokens)[k]
    {
      if t in tokens && !tokens[t].revoked {
        tokens := tokens[t := tokens[t].(revoked := true)];
      }
    }

    /** The administrator's revocation: every token of the user that is not revoked yet; sessions stay. */
    method RevokeUserSessions(user: UserId) returns (count: nat)
      modifies this`tokens
      ensures Tables() == Revoke(old(Tables()), {}, LiveTokensOf(old(Tables()), user))
      ensures count == |LiveTokensOf(old(Tables()), user)|
      ensures tokens.Keys == old(tokens).Keys && forall k :: k in tokens ==>
        tokens[k] == if old(tokens)[k].user == user then old(tokens)[k].(revoked := true) else old(tokens)[k]
    {
      var live := set t | t in tokens && tokens[t].user == user && !tokens[t].revoked;
      assert live == LiveTokensOf(Tables(), user);
      tokens := RevokeTokens(tokens, live);
      return |live|;
    }

    /** The end of resetPassword, and with reissue of changePassword, setPassword and
        confirmEmailChange: all sessions, then all tokens, then perhaps a new session. */
    method CloseUserSessions(user: UserId, reissue: bool, now: int)
      modifies this
      ensures Tables() == (
        var closed := Revoke(old(Tables()), OpenSessionsOf(old(Tables()), user), LiveTokensOf(old(Tables()), user));
        if reissue then Issue(closed, user, now) else closed)
      ensures reissue || (sessions.Keys == old(sessions).Keys && tokens.Keys == old(tokens).Keys)
      ensures Keyed(old(Tables())) ==> forall s :: s in old(sessions) ==>
        s in sessions && (sessions[s] == if old(sessions)[s].user == user then old(sessions)[s].(revoked := true)
          else old(sessions)[s])
      ensures Keyed(old(Tables())) ==> forall k :: k in old(tokens) ==>
        k in tokens && (tokens[k] == if old(tokens)[k].user == user then old(tokens)[k].(revoked := true)
          else old(tokens)[k])
      ensures Keyed(old(Tables())) ==>
                forall s :: s in old(sessions) && old(sessions)[s].user == user ==> s in sessions && sessions[s].revoked
    {
      var open := set s | s in sessions && sessions[s].user == user && !sessions[s].revoked;
      var live := set t | t in tokens && tokens[t].user == user && !tokens[t].revoked;
      assert open == OpenSessionsOf(Tables(), user) && live == LiveTokensOf(Tables(), user);
      ghost var before := Tables();
      sessions := RevokeSessions(sessions, open);
      tokens := RevokeTokens(tokens, live);
      assert Tables() == Revoke(before, open, live);
      if reissue {
        var t := IssueAuthTokens(user, now);
      }
    }
  }

  /** After a rotation the old token is spent: presenting it again is answered as reuse, and then the
      new token is refused as well. */
  lemma SpentTokenIsReuse(db: Db, t: TokenId, now: int, later: int, muchLater: int, found: bool)
    requires Keyed(db) && RefreshAlone(db, t, now, true).0.Rotated?
    ensures var (first, db1) := RefreshAlone(db, t, now, true);
      var (second, db2) := RefreshAlone(db1, t, later, found);
      && second == Reuse
      && RefreshAlone(db2, first.token, muchLater, found).0 == Reuse
      && LiveTokensIn(db2, db.tokens[t].session) == {}
  {
  }
}
