/** User sessions and refresh tokens, and what each authentication transaction does to them.  A
    presented refresh token is represented by the id of the row its hash finds; an unknown one is an id
    without a row. */
module SessionRows {
  import opened Wrappers

  type UserId = nat

  /** Serial keys start at one. */
  type SessionId = i: int | 0 < i witness 1

  type TokenId = i: int | 0 < i witness 1

  datatype Session = Session(user: UserId, revoked: bool)

  /** predecessor is the column replaced_by_id: a rotated-in token stores the id of the one it replaces. */
  datatype Token = Token(user: UserId, session: SessionId, expiresAt: int, revoked: bool, predecessor: Option<TokenId>)

  datatype Db = Db(sessions: map<SessionId, Session>, tokens: map<TokenId, Token>, nextSession: SessionId,
      nextToken: TokenId)

  const TOKEN_LIFETIME: int := 7 * 24 * 60 * 60

  function RevokeSessions(sessions: map<SessionId, Session>, ids: set<SessionId>): map<SessionId, Session> {
    map s | s in sessions :: if s in ids then sessions[s].(revoked := true) else sessions[s]
  }

  function RevokeTokens(tokens: map<TokenId, Token>, ids: set<TokenId>): map<TokenId, Token> {
    map t | t in tokens :: if t in ids then tokens[t].(revoked := true) else tokens[t]
  }

  function SessionsOf(db: Db, user: UserId): set<SessionId> {
    set s | s in db.sessions && db.sessions[s].user == user
  }

  function OpenSessionsOf(db: Db, user: UserId): set<SessionId> {
    set s | s in db.sessions && db.sessions[s].user == user && !db.sessions[s].revoked
  }

  function LiveTokensOf(db: Db, user: UserId): set<TokenId> {
    set t | t in db.tokens && db.tokens[t].user == user && !db.tokens[t].revoked
  }

  function TokensIn(db: Db, s: SessionId): set<TokenId> {
    set t | t in db.tokens && db.tokens[t].session == s
  }

  function LiveTokensIn(db: Db, s: SessionId): set<TokenId> {
    set t | t in db.tokens && db.tokens[t].session == s && !db.tokens[t].revoked
  }

  /** issueAuthTokens: a new session with its first token. */
  function Issue(db: Db, user: UserId, now: int): Db {
    Db(db.sessions[db.nextSession := Session(user, false)],
       db.tokens[db.nextToken := Token(user, db.nextSession, now + TOKEN_LIFETIME, false, None)],
       db.nextSession + 1, db.nextToken + 1)
  }

  /** Revoke t and issue its successor in the same session. */
  function Rotate(db: Db, t: TokenId, now: int): Db
    requires t in db.tokens
  {
    var row := db.tokens[t];
    var successor := Token(row.user, row.session, now + TOKEN_LIFETIME, false, Some(t));
    db.(tokens := RevokeTokens(db.tokens, {t})[db.nextToken := successor],
        nextToken := db.nextToken + 1)
  }

  /** Revoke a session and the tokens in dead. */
  function Kill(db: Db, s: SessionId, dead: set<TokenId>): Db {
    Revoke(db, {s}, dead)
  }

  datatype Outcome = Rotated(token: TokenId) | InvalidToken | Reuse | TokenExpired | SessionRevoked | Unauthorized

  // What holds of the tables.

  /** The tokens of session s, oldest first, each replacing the one before it; only the newest may be
      unrevoked. */
  ghost predicate IsChain(db: Db, s: SessionId, chain: seq<TokenId>) {
    && chain != []
    && (forall i :: 0 <= i < |chain| ==> chain[i] in db.tokens && db.tokens[chain[i]].session == s)
    && (forall t :: t in TokensIn(db, s) ==> t in chain)
    && (forall i, j :: 0 <= i < j < |chain| ==> chain[i] < chain[j])
    && db.tokens[chain[0]].predecessor == None
    && (forall i :: 0 < i < |chain| ==> db.tokens[chain[i]].predecessor == Some(chain[i - 1]))
    && (forall i :: 0 <= i < |chain| - 1 ==> db.tokens[chain[i]].revoked)
  }

  ghost predicate OneChain(db: Db, s: SessionId) {
    exists chain :: IsChain(db, s, chain)
  }

  ghost predicate Chained(db: Db) {
    forall s :: s in db.sessions ==> OneChain(db, s)
  }

  ghost predicate Keyed(db: Db) {
    && (forall s :: s in db.sessions ==> s < db.nextSession)
    && (forall t :: t in db.tokens ==>
         t < db.nextToken && db.tokens[t].session in db.sessions
           && db.tokens[t].user == db.sessions[db.tokens[t].session].user)
  }

  ghost predicate Consistent(db: Db) {
    Keyed(db) && Chained(db)
  }

  /** A chain stays one when its tokens keep session and predecessor and are only ever revoked. */
  lemma ChainCarriesOver(before: Db, after: Db, s: SessionId, chain: seq<TokenId>)
    requires IsChain(before, s, chain)
    requires TokensIn(after, s) == TokensIn(before, s)
    requires forall t :: t in TokensIn(before, s) ==>
      && after.tokens[t].predecessor == before.tokens[t].predecessor
      && (before.tokens[t].revoked ==> after.tokens[t].revoked)
    ensures IsChain(after, s, chain)
  {
    forall i | 0 <= i < |chain| ensures chain[i] in TokensIn(before, s) && chain[i] in TokensIn(after, s) {
    }
  }

  lemma ChainGrows(before: Db, after: Db, s: SessionId, chain: seq<TokenId>, next: TokenId)
    requires IsChain(before, s, chain)
    requires TokensIn(after, s) == TokensIn(before, s) + {next}
    requires forall t :: t in TokensIn(before, s) ==>
      && t < next
      && after.tokens[t].predecessor == before.tokens[t].predecessor
      && after.tokens[t].revoked
    requires after.tokens[next].predecessor == Some(chain[|chain| - 1])
    ensures IsChain(after, s, chain + [next])
  {
    var longer := chain + [next];
    forall i | 0 <= i < |chain|
      ensures chain[i] in TokensIn(before, s) && chain[i] in TokensIn(after, s) && longer[i] == chain[i]
    {
    }
    assert longer[|chain|] == next;
    assert next in TokensIn(after, s);
  }

  lemma UnrevokedIsLast(db: Db, s: SessionId, chain: seq<TokenId>, t: TokenId)
    requires IsChain(db, s, chain) && t in LiveTokensIn(db, s)
    ensures chain[|chain| - 1] == t
  {
    assert t in TokensIn(db, s);
    var i :| 0 <= i < |chain| && chain[i] == t;
  }

  function Revoke(db: Db, sessions: set<SessionId>, tokens: set<TokenId>): Db {
    db.(sessions := RevokeSessions(db.sessions, sessions), tokens := RevokeTokens(db.tokens, tokens))
  }

  lemma RevokingKeepsChain(db: Db, sessions: set<SessionId>, tokens: set<TokenId>, s: SessionId)
    requires OneChain(db, s)
    ensures OneChain(Revoke(db, sessions, tokens), s)
  {
    var chain :| IsChain(db, s, chain);
    assert TokensIn(Revoke(db, sessions, tokens), s) == TokensIn(db, s);
    ChainCarriesOver(db, Revoke(db, sessions, tokens), s, chain);
  }

  lemma RevokingIsKeyed(db: Db, sessions: set<SessionId>, tokens: set<TokenId>)
    requires Keyed(db)
    ensures Keyed(Revoke(db, sessions, tokens))
  {
  }

  /** Revoking keeps every chain. */
  lemma RevokingIsConsistent(db: Db, sessions: set<SessionId>, tokens: set<TokenId>)
    requires Consistent(db)
    ensures Consistent(Revoke(db, sessions, tokens))
  {
    RevokingIsKeyed(db, sessions, tokens);
    forall s | s in db.sessions ensures OneChain(Revoke(db, sessions, tokens), s) {
      RevokingKeepsChain(db, sessions, tokens, s);
    }
  }

  lemma IssueKeepsChain(db: Db, user: UserId, now: int, s: SessionId)
    requires Keyed(db) && s in db.sessions && OneChain(db, s)
    ensures OneChain(Issue(db, user, now), s)
  {
    var chain :| IsChain(db, s, chain);
    assert TokensIn(Issue(db, user, now), s) == TokensIn(db, s);
    ChainCarriesOver(db, Issue(db, user, now), s, chain);
  }

  lemma IssueStartsChain(db: Db, user: UserId, now: int)
    requires Keyed(db)
    ensures Keyed(Issue(db, user, now)) && OneChain(Issue(db, user, now), db.nextSession)
  {
    assert IsChain(Issue(db, user, now), db.nextSession, [db.nextToken]);
  }

  lemma IssueIsConsistent(db: Db, user: UserId, now: int)
    requires Consistent(db)
    ensures Consistent(Issue(db, user, now))
  {
    IssueStartsChain(db, user, now);
    forall s | s in db.sessions ensures OneChain(Issue(db, user, now), s) {
      IssueKeepsChain(db, user, now, s);
    }
  }

  lemma RotateExtendsChain(db: Db, t: TokenId, now: int)
    requires t in db.tokens && Keyed(db) && OneChain(db, db.tokens[t].session) && !db.tokens[t].revoked
    ensures OneChain(Rotate(db, t, now), db.tokens[t].session)
  {
    var after, s := Rotate(db, t, now), db.tokens[t].session;
    var chain :| IsChain(db, s, chain);
    UnrevokedIsLast(db, s, chain, t);
    forall u | u in TokensIn(db, s) ensures after.tokens[u].revoked {
      var i :| 0 <= i < |chain| && chain[i] == u;
    }
    assert TokensIn(after, s) == TokensIn(db, s) + {db.nextToken};
    ChainGrows(db, after, s, chain, db.nextToken);
  }

  lemma RotateKeepsOtherChain(db: Db, t: TokenId, now: int, s: SessionId)
    requires t in db.tokens && Keyed(db) && OneChain(db, s) && s in db.sessions && s != db.tokens[t].session
    ensures OneChain(Rotate(db, t, now), s)
  {
    var after := Rotate(db, t, now);
    var chain :| IsChain(db, s, chain);
    assert TokensIn(after, s) == TokensIn(db, s);
    ChainCarriesOver(db, after, s, chain);
  }

  lemma RotateIsKeyed(db: Db, t: TokenId, now: int)
    requires Keyed(db) && t in db.tokens
    ensures Keyed(Rotate(db, t, now))
  {
  }

  /** An unrevoked token is the newest of its session's chain, and rotating it extends that chain. */
  lemma RotateIsConsistent(db: Db, t: TokenId, now: int)
    requires Consistent(db) && t in db.tokens && !db.tokens[t].revoked
    ensures Consistent(Rotate(db, t, now))
  {
    RotateIsKeyed(db, t, now);
    forall s | s in db.sessions ensures OneChain(Rotate(db, t, now), s) {
      assert OneChain(db, s);
      if s == db.tokens[t].session {
        RotateExtendsChain(db, t, now);
      } else {
        RotateKeepsOtherChain(db, t, now, s);
      }
    }
  }

  /** At most one unrevoked token per session, and it is the newest. */
  lemma LiveTokenIsNewest(db: Db, s: SessionId, live: TokenId, t: TokenId)
    requires Consistent(db) && s in db.sessions && live in LiveTokensIn(db, s) && t in TokensIn(db, s)
    ensures t <= live && (t != live ==> db.tokens[t].revoked)
  {
    var chain :| IsChain(db, s, chain);
    UnrevokedIsLast(db, s, chain, live);
    var i :| 0 <= i < |chain| && chain[i] == t;
  }

  /** Read off the chain: no two tokens replace the same one, and a replaced token is an older, revoked
      token of the same session, so the links have no cycle. */
  lemma LinksFormAChain(db: Db, s: SessionId, t: TokenId, u: TokenId)
    requires Consistent(db) && s in db.sessions && t in TokensIn(db, s) && u in TokensIn(db, s)
    ensures t != u ==> db.tokens[t].predecessor != db.tokens[u].predecessor
    ensures db.tokens[t].predecessor.Some? ==>
              var p := db.tokens[t].predecessor.value;
              p in TokensIn(db, s) && p < t && db.tokens[p].revoked
  {
    var chain :| IsChain(db, s, chain);
    var i :| 0 <= i < |chain| && chain[i] == t;
    var j :| 0 <= j < |chain| && chain[j] == u;
    if i > 0 {
      assert chain[i - 1] in TokensIn(db, s);
    }
    if j > 0 {
      assert chain[j - 1] in TokensIn(db, s);
    }
  }
}
