/** Field by field, what each authentication transaction does to sessions and tokens and exactly when it
    refuses; and that the transition system leaves none of them out. */
module SessionEffects {
  import opened Wrappers
  import opened SessionRows
  import opened SessionProtocol

  // Refresh.

  ghost predicate Known(db: Db, t: TokenId) {
    t in db.tokens && db.tokens[t].session in db.sessions
  }

  /** Each answer of a refresh has its own exact condition on the rows before. */
  lemma RefreshAnswers(db: Db, t: TokenId, now: int, found: bool)
    ensures var r := RefreshAlone(db, t, now, found).0;
      && (r == InvalidToken <==> !Known(db, t))
      && (r == Reuse <==> Known(db, t) && db.tokens[t].revoked)
      && (r == TokenExpired <==> Known(db, t) && !db.tokens[t].revoked && db.tokens[t].expiresAt < now)
      && (r == SessionRevoked <==>
            Known(db, t) && !db.tokens[t].revoked && now <= db.tokens[t].expiresAt
            && db.sessions[db.tokens[t].session].revoked)
      && (r == Unauthorized <==>
            Known(db, t) && !db.tokens[t].revoked && now <= db.tokens[t].expiresAt
            && !db.sessions[db.tokens[t].session].revoked && !found)
      && (r.Rotated? <==>
            Known(db, t) && !db.tokens[t].revoked && now <= db.tokens[t].expiresAt
            && !db.sessions[db.tokens[t].session].revoked && found)
  {
  }

  /** An unknown or expired token and a revoked session leave every table as it was. */
  lemma RefreshRefusalsChangeNothing(db: Db, t: TokenId, now: int, found: bool)
    ensures var (r, after) := RefreshAlone(db, t, now, found);
      r == InvalidToken || r == TokenExpired || r == SessionRevoked ==> after == db
  {
  }

  /** A rotation revokes the presented token and adds its successor: same user and session, seven days to
      live, linked to the old one.  Nothing else changes. */
  lemma RotationWrites(db: Db, t: TokenId, now: int)
    requires Keyed(db) && RefreshAlone(db, t, now, true).0.Rotated?
    ensures var (r, after) := RefreshAlone(db, t, now, true);
      && r.token == db.nextToken && after.nextToken == db.nextToken + 1
      && after.sessions == db.sessions && after.nextSession == db.nextSession
      && after.tokens.Keys == db.tokens.Keys + {r.token} && r.token !in db.tokens
      && (forall k :: k in db.tokens && k != t ==> after.tokens[k] == db.tokens[k])
      && after.tokens[t] == db.tokens[t].(revoked := true)
      && var next := after.tokens[r.token];
         && next.user == db.tokens[t].user && next.session == db.tokens[t].session && !next.revoked
         && next.expiresAt == now + 604_800 && next.predecessor == Some(t)
  {
  }

  /** Reuse, and a user that is gone, revoke the session and every token of it, and nothing else. */
  lemma KillWrites(db: Db, t: TokenId, now: int, found: bool)
    requires var r := RefreshAlone(db, t, now, found).0; r == Reuse || r == Unauthorized
    ensures var after, s := RefreshAlone(db, t, now, found).1, db.tokens[t].session;
      OnlyRevokes(db, after)
      && (forall o :: o in db.sessions ==> (after.sessions[o].revoked <==> db.sessions[o].revoked || o == s))
      && (forall k :: k in db.tokens ==>
        (after.tokens[k].revoked <==> db.tokens[k].revoked || db.tokens[k].session == s))
  {
  }

  /** The same rows with the same contents; only marks of revocation may differ. */
  ghost predicate OnlyRevokes(before: Db, after: Db) {
    && after.sessions.Keys == before.sessions.Keys && after.tokens.Keys == before.tokens.Keys
    && after.nextSession == before.nextSession && after.nextToken == before.nextToken
    && (forall o :: o in before.sessions ==> after.sessions[o].user == before.sessions[o].user)
    && (forall k :: k in before.tokens ==>
          && after.tokens[k].user == before.tokens[k].user && after.tokens[k].session == before.tokens[k].session
          && after.tokens[k].expiresAt == before.tokens[k].expiresAt
          && after.tokens[k].predecessor == before.tokens[k].predecessor)
  }

  // The other transactions.

  /** A login adds one open session of the user and one token in it, seven days to live, and changes
      nothing else. */
  lemma IssueWrites(db: Db, user: UserId, now: int)
    requires Keyed(db)
    ensures var after := Issue(db, user, now);
      && after.nextSession == db.nextSession + 1 && after.nextToken == db.nextToken + 1
      && after.sessions.Keys == db.sessions.Keys + {db.nextSession} && db.nextSession !in db.sessions
      && after.tokens.Keys == db.tokens.Keys + {db.nextToken} && db.nextToken !in db.tokens
      && (forall o :: o in db.sessions ==> after.sessions[o] == db.sessions[o])
      && (forall k :: k in db.tokens ==> after.tokens[k] == db.tokens[k])
      && after.sessions[db.nextSession].user == user && !after.sessions[db.nextSession].revoked
      && var token := after.tokens[db.nextToken];
         && token.user == user && token.session == db.nextSession && token.expiresAt == now + 604_800
         && !token.revoked && token.predecessor == None
  {
  }

  /** What ends a reset: all sessions and all tokens of the user are revoked and nobody else's are touched. */
  lemma ClosingWrites(db: Db, user: UserId)
    ensures var after := Revoke(db, OpenSessionsOf(db, user), LiveTokensOf(db, user));
      OnlyRevokes(db, after)
      && (forall o :: o in db.sessions ==>
            (after.sessions[o].revoked <==> db.sessions[o].revoked || db.sessions[o].user == user))
      && (forall k :: k in db.tokens ==>
        (after.tokens[k].revoked <==> db.tokens[k].revoked || db.tokens[k].user == user))
  {
  }

  /** Administrative revocation: all tokens of the user, no session, nobody else's. */
  lemma SuperRevokeWrites(s: System, user: UserId)
    requires Enabled(s, SuperRevoke(user))
    ensures var after := Apply(s, SuperRevoke(user));
      OnlyRevokes(s.db, after.db) && after.db.sessions == s.db.sessions && after.open == s.open
      && (forall k :: k in s.db.tokens ==>
            (after.db.tokens[k].revoked <==> s.db.tokens[k].revoked || s.db.tokens[k].user == user))
  {
  }

  // A reset's tokens, whatever comes between its statements.

  lemma StepKeepsRevokedToken(s: System, step: Step, k: TokenId)
    requires Keyed(s.db) && Enabled(s, step) && k in s.db.tokens && s.db.tokens[k].revoked
    ensures k in Apply(s, step).db.tokens && Apply(s, step).db.tokens[k].revoked
  {
  }

  /** While a reset that has run its token update is open, a token of the user from then is revoked or
      about to be. */
  lemma {:induction false} ResetRemembersTokens(s: System, steps: seq<Step>, last: System, tx: Tx, k: TokenId)
    requires Invariant(s) && Run(s, steps, last) && tx in s.open && s.open[tx].ClosingTokens? && k in s.db.tokens
    requires s.db.tokens[k].revoked || k in s.open[tx].dead
    requires forall i :: 0 <= i < |steps| ==> !Leaves(steps[i], tx)
    ensures tx in last.open && last.open[tx].ClosingTokens? && k in last.db.tokens
    ensures last.db.tokens[k].revoked || k in last.open[tx].dead
    decreases |steps|
  {
    if steps != [] {
      assert !Leaves(steps[0], tx);
      StepKeepsInvariant(s, steps[0]);
      StepKeepsToken(s, steps[0], k);
      if s.db.tokens[k].revoked {
        StepKeepsRevokedToken(s, steps[0], k);
      }
      ResetRemembersTokens(Apply(s, steps[0]), steps[1..], last, tx, k);
    }
  }

  /** Once a reset commits, every token its user had when its token update ran is revoked. */
  lemma ResetRevokesTokens(
      a: System, tx: Tx, between: seq<Step>, b: System, now: int, k: TokenId)
    requires Invariant(a) && Enabled(a, RevokeUserTokens(tx)) && k in a.db.tokens
    requires a.db.tokens[k].user == a.open[tx].user
    requires Run(Apply(a, RevokeUserTokens(tx)), between, b) && Enabled(b, CommitReset(tx, now))
    requires forall i :: 0 <= i < |between| ==> !Leaves(between[i], tx)
    ensures k in Apply(b, CommitReset(tx, now)).db.tokens && Apply(b, CommitReset(tx, now)).db.tokens[k].revoked
  {
    StepKeepsInvariant(a, RevokeUserTokens(tx));
    ResetRemembersTokens(Apply(a, RevokeUserTokens(tx)), between, b, tx, k);
    RunKeepsInvariant(Apply(a, RevokeUserTokens(tx)), between, b);
  }

  // No transaction is left out.

  lemma OneStepRun(s: System, step: Step, steps: seq<Step>, last: System)
    requires Enabled(s, step) && Run(Apply(s, step), steps, last)
    ensures Run(s, [step] + steps, last)
  {
    assert ([step] + steps)[1..] == steps;
  }

  lemma ThreeSteps(s: System, a: Step, b: Step, c: Step)
    requires Enabled(s, a) && Enabled(Apply(s, a), b) && Enabled(Apply(Apply(s, a), b), c)
    ensures Run(s, [a, b, c], Apply(Apply(Apply(s, a), b), c))
  {
    var last := Apply(Apply(Apply(s, a), b), c);
    OneStepRun(Apply(Apply(s, a), b), c, [], last);
    OneStepRun(Apply(s, a), b, [c] + [], last);
    OneStepRun(s, a, [b] + ([c] + []), last);
    assert [a] + ([b] + ([c] + [])) == [a, b, c];
  }

  ghost predicate Reaches(s: System, db: Db) {
    exists steps, last :: Run(s, steps, last) && last.db == db && last.open == map[]
  }

  /** With nothing else open, a refresh that rotates alone has a run that commits just that. */
  lemma RotationRuns(s: System, t: TokenId, now: int)
    requires s.open == map[] && RefreshAlone(s.db, t, now, true).0.Rotated?
    ensures Reaches(s, RefreshAlone(s.db, t, now, true).1)
  {
    ThreeSteps(s, BeginRefresh(0, t), LockSession(0), CommitRotate(0, now));
    assert Apply(Apply(Apply(s, BeginRefresh(0, t)), LockSession(0)), CommitRotate(0, now)).open == map[];
  }

  /** So has one that kills its session. */
  lemma KillRuns(s: System, t: TokenId, now: int, found: bool)
    requires s.open == map[]
    requires RefreshAlone(s.db, t, now, found).0 == Reuse || RefreshAlone(s.db, t, now, found).0 == Unauthorized
    ensures Reaches(s, RefreshAlone(s.db, t, now, found).1)
  {
    var s3 := Apply(Apply(Apply(s, BeginRefresh(0, t)), LockSession(0)), RevokeSession(0, now, found));
    var last := Apply(s3, CommitKill(0));
    ThreeSteps(Apply(s, BeginRefresh(0, t)), LockSession(0), RevokeSession(0, now, found), CommitKill(0));
    OneStepRun(s, BeginRefresh(0, t), [LockSession(0), RevokeSession(0, now, found), CommitKill(0)], last);
    assert last.open == map[];
  }

  /** And a reset, with or without a new session at its end. */
  lemma ResetRuns(s: System, user: UserId, reissue: bool, now: int)
    requires s.open == map[]
    ensures var closed := Revoke(s.db, OpenSessionsOf(s.db, user), LiveTokensOf(s.db, user));
      Reaches(s, if reissue then Issue(closed, user, now) else closed)
  {
    ThreeSteps(s, BeginReset(0, user, reissue), RevokeUserTokens(0), CommitReset(0, now));
    assert Apply(Apply(Apply(s, BeginReset(0, user, reissue)), RevokeUserTokens(0)), CommitReset(0, now)).open == map[];
  }

  /** And a logout. */
  lemma LogoutRuns(s: System, t: TokenId)
    requires s.open == map[] && Known(s.db, t)
    ensures Reaches(s, Revoke(s.db, {}, {t}))
  {
    ThreeSteps(s, BeginLogout(0, t), LockLogoutSession(0), CommitLogout(0));
    assert Apply(Apply(Apply(s, BeginLogout(0, t)), LockLogoutSession(0)), CommitLogout(0)).open == map[];
  }
}
