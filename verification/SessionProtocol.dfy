/** Refresh, logout, login, password reset and administrative revocation as a transition system, split
    at statements.  Row locks last until commit or abort; writes show when they commit. */
module SessionProtocol {
  import opened SessionRows

  type Tx = nat

  datatype Txn =
    | Seeking(token: TokenId)                                                     // refresh: token row locked
    // .. and its session
    | Refreshing(token: TokenId, session: SessionId, sawRevoked: bool, sawClosed: bool, expiresAt: int)
    | Killing(token: TokenId, session: SessionId, dead: set<TokenId>)            // .. session and tokens revoked
    | LogoutSeeking(token: TokenId)
    | LoggingOut(token: TokenId, session: SessionId)
    | ClosingSessions(user: UserId, reissue: bool, seen: set<SessionId>, closing: set<SessionId>)
    | ClosingTokens(user: UserId, reissue: bool, seen: set<SessionId>, closing: set<SessionId>, dead: set<TokenId>)

  function TokenLocks(t: Txn): set<TokenId> {
    match t
    case Seeking(k) => {k}
    case Refreshing(k, _, _, _, _) => {k}
    case Killing(k, _, dead) => {k} + dead
    case LogoutSeeking(k) => {k}
    case LoggingOut(k, _) => {k}
    case ClosingSessions(_, _, _, _) => {}
    case ClosingTokens(_, _, _, _, dead) => dead
  }

  function SessionLocks(t: Txn): set<SessionId> {
    match t
    case Seeking(_) => {}
    case Refreshing(_, s, _, _, _) => {s}
    case Killing(_, s, _) => {s}
    case LogoutSeeking(_) => {}
    case LoggingOut(_, s) => {s}
    case ClosingSessions(_, _, _, closing) => closing
    case ClosingTokens(_, _, _, closing, _) => closing
  }

  /** redeemed is a history variable: the tokens exchanged for new ones, in the order of the commits. */
  datatype System = System(db: Db, open: map<Tx, Txn>, redeemed: seq<TokenId>)

  datatype Step =
    | Login(user: UserId, now: int)
    | BeginRefresh(tx: Tx, token: TokenId)
    | LockSession(tx: Tx)
    | RevokeSession(tx: Tx, now: int, userFound: bool)
    | CommitKill(tx: Tx)
    | CommitRotate(tx: Tx, now: int)
    | BeginLogout(tx: Tx, token: TokenId)
    | LockLogoutSession(tx: Tx)
    | CommitLogout(tx: Tx)
    | BeginReset(tx: Tx, user: UserId, reissue: bool)
    | RevokeUserTokens(tx: Tx)
    | CommitReset(tx: Tx, now: int)
    | SuperRevoke(user: UserId)
    | Abort(tx: Tx)

  ghost predicate TokensFree(s: System, tx: Tx, ids: set<TokenId>) {
    forall t :: t in s.open && t != tx ==> TokenLocks(s.open[t]) !! ids
  }

  ghost predicate SessionsFree(s: System, tx: Tx, ids: set<SessionId>) {
    forall t :: t in s.open && t != tx ==> SessionLocks(s.open[t]) !! ids
  }

  ghost predicate Enabled(s: System, step: Step) {
    match step
    case Login(_, _) => true
    case BeginRefresh(tx, t) => tx !in s.open && t in s.db.tokens && TokensFree(s, tx, {t})
    case LockSession(tx) =>
      && tx in s.open && s.open[tx].Seeking? && s.open[tx].token in s.db.tokens
      && s.db.tokens[s.open[tx].token].session in s.db.sessions
      && SessionsFree(s, tx, {s.db.tokens[s.open[tx].token].session})
    case RevokeSession(tx, now, userFound) =>
      && tx in s.open && s.open[tx].Refreshing?
      && var t := s.open[tx];
      && (t.sawRevoked || (now <= t.expiresAt && !t.sawClosed && !userFound))
      && TokensFree(s, tx, LiveTokensIn(s.db, t.session))
    case CommitKill(tx) => tx in s.open && s.open[tx].Killing?
    case CommitRotate(tx, now) =>
      && tx in s.open && s.open[tx].Refreshing? && s.open[tx].token in s.db.tokens
      && !s.open[tx].sawRevoked && now <= s.open[tx].expiresAt && !s.open[tx].sawClosed
    case BeginLogout(tx, t) => tx !in s.open && t in s.db.tokens && TokensFree(s, tx, {t})
    case LockLogoutSession(tx) =>
      && tx in s.open && s.open[tx].LogoutSeeking? && s.open[tx].token in s.db.tokens
      && s.db.tokens[s.open[tx].token].session in s.db.sessions
      && SessionsFree(s, tx, {s.db.tokens[s.open[tx].token].session})
    case CommitLogout(tx) => tx in s.open && s.open[tx].LoggingOut?
    case BeginReset(tx, user, _) => tx !in s.open && SessionsFree(s, tx, OpenSessionsOf(s.db, user))
    case RevokeUserTokens(tx) =>
      && tx in s.open && s.open[tx].ClosingSessions?
      && TokensFree(s, tx, LiveTokensOf(s.db, s.open[tx].user))
    case CommitReset(tx, _) => tx in s.open && s.open[tx].ClosingTokens?
    case SuperRevoke(user) => forall t :: t in s.open ==> TokenLocks(s.open[t]) !! LiveTokensOf(s.db, user)
    case Abort(tx) => tx in s.open
  }

  function Enter(s: System, tx: Tx, t: Txn): System {
    s.(open := s.open[tx := t])
  }

  function Leave(s: System, tx: Tx, db: Db): System {
    s.(db := db, open := s.open - {tx})
  }

  function ResetDb(db: Db, t: Txn, now: int): Db
    requires t.ClosingTokens?
  {
    var closed := Revoke(db, t.closing, t.dead);
    if t.reissue then Issue(closed, t.user, now) else closed
  }

  ghost function Apply(s: System, step: Step): System
    requires Enabled(s, step)
  {
    match step
    case Login(user, now) => s.(db := Issue(s.db, user, now))
    case BeginRefresh(tx, t) => Enter(s, tx, Seeking(t))
    case LockSession(tx) =>
      var t := s.open[tx].token;
      var row := s.db.tokens[t];
      Enter(s, tx, Refreshing(t, row.session, row.revoked, s.db.sessions[row.session].revoked, row.expiresAt))
    case RevokeSession(tx, _, _) =>
      var t := s.open[tx];
      Enter(s, tx, Killing(t.token, t.session, LiveTokensIn(s.db, t.session)))
    case CommitKill(tx) => Leave(s, tx, Kill(s.db, s.open[tx].session, s.open[tx].dead))
    case CommitRotate(tx, now) =>
      var t := s.open[tx].token;
      Leave(s, tx, Rotate(s.db, t, now)).(redeemed := s.redeemed + [t])
    case BeginLogout(tx, t) => Enter(s, tx, LogoutSeeking(t))
    case LockLogoutSession(tx) => Enter(s, tx, LoggingOut(s.open[tx].token, s.db.tokens[s.open[tx].token].session))
    case CommitLogout(tx) => Leave(s, tx, Revoke(s.db, {}, {s.open[tx].token}))
    case BeginReset(tx, user, reissue) =>
      Enter(s, tx, ClosingSessions(user, reissue, SessionsOf(s.db, user), OpenSessionsOf(s.db, user)))
    case RevokeUserTokens(tx) =>
      var t := s.open[tx];
      Enter(s, tx, ClosingTokens(t.user, t.reissue, t.seen, t.closing, LiveTokensOf(s.db, t.user)))
    case CommitReset(tx, now) => Leave(s, tx, ResetDb(s.db, s.open[tx], now))
    case SuperRevoke(user) => s.(db := Revoke(s.db, {}, LiveTokensOf(s.db, user)))
    case Abort(tx) => Leave(s, tx, s.db)
  }

  ghost predicate Initial(s: System) {
    s.db.sessions == map[] && s.db.tokens == map[] && s.open == map[] && s.redeemed == []
  }

  // The invariant.

  ghost predicate TxnOk(db: Db, t: Txn) {
    match t
    case Seeking(k) => k in db.tokens
    case Refreshing(k, s, sawRevoked, sawClosed, expiresAt) =>
      && k in db.tokens && db.tokens[k].session == s && db.tokens[k].revoked == sawRevoked
        && db.tokens[k].expiresAt == expiresAt
      && s in db.sessions && db.sessions[s].revoked == sawClosed
    case Killing(k, s, dead) => k in db.tokens && s in db.sessions && dead == LiveTokensIn(db, s)
    case LogoutSeeking(k) => k in db.tokens
    case LoggingOut(k, s) => k in db.tokens && s in db.sessions
    case ClosingSessions(_, _, seen, closing) =>
      closing <= seen && forall s :: s in seen ==> s in db.sessions && (s in closing || db.sessions[s].revoked)
    case ClosingTokens(_, _, seen, closing, dead) =>
      && closing <= seen && (forall s :: s in seen ==> s in db.sessions && (s in closing || db.sessions[s].revoked))
      && forall k :: k in dead ==> k in db.tokens
  }

  ghost predicate Exclusive(s: System) {
    forall t, u :: t in s.open && u in s.open && t != u ==>
      TokenLocks(s.open[t]) !! TokenLocks(s.open[u]) && SessionLocks(s.open[t]) !! SessionLocks(s.open[u])
  }

  ghost predicate RedeemedOk(db: Db, redeemed: seq<TokenId>) {
    && (forall i :: 0 <= i < |redeemed| ==> redeemed[i] in db.tokens && db.tokens[redeemed[i]].revoked)
    && (forall i, j :: 0 <= i < j < |redeemed| ==> redeemed[i] != redeemed[j])
  }

  ghost predicate Invariant(s: System) {
    && Keyed(s.db)
    && (forall t :: t in s.open ==> TxnOk(s.db, s.open[t]))
    && Exclusive(s)
    && RedeemedOk(s.db, s.redeemed)
  }

  /** db2 differs from db1 only outside the rows t has locked; revocation is for ever, and a locked
      session gets no new token. */
  ghost predicate OutsideLocks(db1: Db, db2: Db, t: Txn) {
    && (forall k :: k in db1.tokens ==>
         && k in db2.tokens && db2.tokens[k].session == db1.tokens[k].session
           && db2.tokens[k].expiresAt == db1.tokens[k].expiresAt
         && (db1.tokens[k].revoked ==> db2.tokens[k].revoked)
         && (k in TokenLocks(t) ==> db2.tokens[k].revoked == db1.tokens[k].revoked))
    && (forall s :: s in db1.sessions ==>
         && s in db2.sessions && (db1.sessions[s].revoked ==> db2.sessions[s].revoked)
         && (s in SessionLocks(t) ==> db2.sessions[s].revoked == db1.sessions[s].revoked))
    && (forall k :: k in db2.tokens && k !in db1.tokens ==> db2.tokens[k].session !in SessionLocks(t))
  }

  lemma KeepsTxnOk(db1: Db, db2: Db, t: Txn)
    requires TxnOk(db1, t) && OutsideLocks(db1, db2, t)
    ensures TxnOk(db2, t)
  {
    if t.Killing? {
      assert LiveTokensIn(db2, t.session) == LiveTokensIn(db1, t.session);
    }
  }

  lemma EnterKeepsInvariant(s: System, tx: Tx, t: Txn)
    requires Invariant(s) && TxnOk(s.db, t)
    requires TokensFree(s, tx, TokenLocks(t)) && SessionsFree(s, tx, SessionLocks(t))
    ensures Invariant(Enter(s, tx, t))
  {
  }

  lemma CommitKeepsInvariant(s: System, tx: Tx, after: System)
    requires Invariant(s) && Keyed(after.db) && RedeemedOk(after.db, after.redeemed)
    requires after.open == s.open || after.open == s.open - {tx}
    requires forall t :: t in after.open ==> OutsideLocks(s.db, after.db, s.open[t])
    ensures Invariant(after)
  {
    forall t | t in after.open ensures TxnOk(after.db, after.open[t]) {
      KeepsTxnOk(s.db, after.db, s.open[t]);
    }
  }

  lemma RevocationKeepsInvariant(s: System, tx: Tx, sessions: set<SessionId>, tokens: set<TokenId>, after: System)
    requires Invariant(s)
    requires after == s.(db := Revoke(s.db, sessions, tokens), open := after.open)
    requires after.open == s.open || after.open == s.open - {tx}
    requires forall t :: t in after.open ==> TokenLocks(s.open[t]) !! tokens && SessionLocks(s.open[t]) !! sessions
    ensures Invariant(after)
  {
    RevokingIsKeyed(s.db, sessions, tokens);
    CommitKeepsInvariant(s, tx, after);
  }

  lemma IssueKeepsInvariant(s: System, user: UserId, now: int)
    requires Invariant(s)
    ensures Invariant(s.(db := Issue(s.db, user, now)))
  {
    assert Keyed(Issue(s.db, user, now));
    forall t | t in s.open ensures s.db.nextSession !in SessionLocks(s.open[t]) {
      assert TxnOk(s.db, s.open[t]);
    }
    CommitKeepsInvariant(s, 0, s.(db := Issue(s.db, user, now)));
  }

  lemma RotationKeepsLog(db: Db, redeemed: seq<TokenId>, t: TokenId, now: int)
    requires Keyed(db) && RedeemedOk(db, redeemed) && t in db.tokens && !db.tokens[t].revoked
    ensures RedeemedOk(Rotate(db, t, now), redeemed + [t])
  {
    var log: seq<TokenId> := redeemed + [t];
    forall i | 0 <= i < |redeemed| ensures log[i] in db.tokens && log[i] < db.nextToken && db.tokens[log[i]].revoked {
      assert log[i] == redeemed[i];
    }
  }

  lemma RotationStaysOutside(db: Db, t: TokenId, now: int, other: Txn)
    requires Keyed(db) && t in db.tokens
    requires t !in TokenLocks(other) && db.tokens[t].session !in SessionLocks(other)
    ensures OutsideLocks(db, Rotate(db, t, now), other)
  {
  }

  lemma RotationKeepsInvariant(s: System, tx: Tx, now: int)
    requires Invariant(s) && Enabled(s, CommitRotate(tx, now))
    ensures Invariant(Apply(s, CommitRotate(tx, now)))
  {
    var t := s.open[tx].token;
    var after := Leave(s, tx, Rotate(s.db, t, now)).(redeemed := s.redeemed + [t]);
    assert TxnOk(s.db, s.open[tx]);
    assert t in TokenLocks(s.open[tx]) && s.db.tokens[t].session in SessionLocks(s.open[tx]);
    RotateIsKeyed(s.db, t, now);
    RotationKeepsLog(s.db, s.redeemed, t, now);
    forall u | u in after.open ensures OutsideLocks(s.db, after.db, s.open[u]) {
      RotationStaysOutside(s.db, t, now, s.open[u]);
    }
    CommitKeepsInvariant(s, tx, after);
  }

  lemma CommitStepKeepsInvariant(s: System, step: Step)
    requires Invariant(s) && Enabled(s, step)
    requires step.CommitKill? || step.CommitLogout? || step.CommitReset? || step.SuperRevoke?
    ensures Invariant(Apply(s, step))
  {
    match step
    case CommitKill(tx) => RevocationKeepsInvariant(s, tx, {s.open[tx].session}, s.open[tx].dead, Apply(s, step));
    case CommitLogout(tx) => RevocationKeepsInvariant(s, tx, {}, {s.open[tx].token}, Apply(s, step));
    case CommitReset(tx, now) =>
      var closed := Leave(s, tx, Revoke(s.db, s.open[tx].closing, s.open[tx].dead));
      RevocationKeepsInvariant(s, tx, s.open[tx].closing, s.open[tx].dead, closed);
      IssueKeepsInvariant(closed, s.open[tx].user, now);
    case SuperRevoke(user) => RevocationKeepsInvariant(s, 0, {}, LiveTokensOf(s.db, user), Apply(s, step));
  }

  /** Every step keeps the invariant. */
  lemma StepKeepsInvariant(s: System, step: Step)
    requires Invariant(s) && Enabled(s, step)
    ensures Invariant(Apply(s, step))
  {
    match step
    case Login(user, now) => IssueKeepsInvariant(s, user, now);
    case CommitRotate(tx, now) => RotationKeepsInvariant(s, tx, now);
    case CommitKill(_) => CommitStepKeepsInvariant(s, step);
    case CommitLogout(_) => CommitStepKeepsInvariant(s, step);
    case CommitReset(_, _) => CommitStepKeepsInvariant(s, step);
    case SuperRevoke(_) => CommitStepKeepsInvariant(s, step);
    case Abort(tx) =>
    case _ => EnterKeepsInvariant(s, step.tx, Apply(s, step).open[step.tx]);
  }

  /** Every step keeps every session's tokens in one chain. */
  lemma StepKeepsChains(s: System, step: Step)
    requires Invariant(s) && Chained(s.db) && Enabled(s, step)
    ensures Chained(Apply(s, step).db)
  {
    match step
    case Login(user, now) => IssueIsConsistent(s.db, user, now);
    case CommitKill(tx) => RevokingIsConsistent(s.db, {s.open[tx].session}, s.open[tx].dead);
    case CommitRotate(tx, now) =>
      assert TxnOk(s.db, s.open[tx]);
      RotateIsConsistent(s.db, s.open[tx].token, now);
    case CommitLogout(tx) => RevokingIsConsistent(s.db, {}, {s.open[tx].token});
    case CommitReset(tx, now) =>
      RevokingIsConsistent(s.db, s.open[tx].closing, s.open[tx].dead);
      IssueIsConsistent(Revoke(s.db, s.open[tx].closing, s.open[tx].dead), s.open[tx].user, now);
    case SuperRevoke(user) => RevokingIsConsistent(s.db, {}, LiveTokensOf(s.db, user));
    case _ =>
  }

  // Runs.

  ghost predicate Run(s: System, steps: seq<Step>, last: System)
    decreases |steps|
  {
    if steps == [] then s == last
    else Enabled(s, steps[0]) && Run(Apply(s, steps[0]), steps[1..], last)
  }

  lemma {:induction false} RunKeepsInvariant(s: System, steps: seq<Step>, last: System)
    requires Invariant(s) && Run(s, steps, last)
    ensures Invariant(last)
    decreases |steps|
  {
    if steps != [] {
      StepKeepsInvariant(s, steps[0]);
      RunKeepsInvariant(Apply(s, steps[0]), steps[1..], last);
    }
  }

  lemma {:induction false} RunKeepsChains(s: System, steps: seq<Step>, last: System)
    requires Invariant(s) && Chained(s.db) && Run(s, steps, last)
    ensures Chained(last.db)
    decreases |steps|
  {
    if steps != [] {
      StepKeepsInvariant(s, steps[0]);
      StepKeepsChains(s, steps[0]);
      RunKeepsChains(Apply(s, steps[0]), steps[1..], last);
    }
  }

  lemma ReachableHasInvariant(s0: System, steps: seq<Step>, s: System)
    requires Initial(s0) && Run(s0, steps, s)
    ensures Invariant(s)
  {
    RunKeepsInvariant(s0, steps, s);
  }

  /** Single-chain rotation: in every reachable state the tokens of a session form one chain, in which
      at most the newest is unrevoked, and no token has been redeemed twice. */
  lemma SingleChainRotation(s0: System, steps: seq<Step>, s: System, session: SessionId)
    requires Initial(s0) && Run(s0, steps, s) && session in s.db.sessions
    ensures OneChain(s.db, session)
    ensures forall a, b :: a in LiveTokensIn(s.db, session) && b in TokensIn(s.db, session) ==>
      b <= a && (b in LiveTokensIn(s.db, session) ==> a == b)
    ensures forall i, j :: 0 <= i < j < |s.redeemed| ==> s.redeemed[i] != s.redeemed[j]
  {
    ReachableHasInvariant(s0, steps, s);
    RunKeepsChains(s0, steps, s);
    forall a, b | a in LiveTokensIn(s.db, session) && b in TokensIn(s.db, session)
      ensures b <= a && (b in LiveTokensIn(s.db, session) ==> a == b)
    {
      LiveTokenIsNewest(s.db, session, a, b);
    }
  }

  // Sessions that are closed, or that an open reset is about to close.

  /** The session is revoked, or a reset that has run its session update holds it locked. */
  ghost predicate Shut(s: System, tx: Tx, session: SessionId) {
    && session in s.db.sessions
    && (s.db.sessions[session].revoked
        || (tx in s.open && (s.open[tx].ClosingSessions? || s.open[tx].ClosingTokens?)
          && session in s.open[tx].closing))
  }

  /** No token of the session is redeemed between s and later. */
  ghost predicate NoneRedeemed(s: System, later: System, session: SessionId) {
    && |s.redeemed| <= |later.redeemed|
    && forall i :: |s.redeemed| <= i < |later.redeemed| ==>
         later.redeemed[i] in later.db.tokens && later.db.tokens[later.redeemed[i]].session != session
  }

  lemma NoneRedeemedCompose(a: System, b: System, c: System, session: SessionId)
    requires NoneRedeemed(a, b, session) && NoneRedeemed(b, c, session) && b.redeemed <= c.redeemed
    requires forall k :: k in b.db.tokens ==> k in c.db.tokens && c.db.tokens[k].session == b.db.tokens[k].session
    ensures NoneRedeemed(a, c, session)
  {
    forall i | |a.redeemed| <= i < |c.redeemed|
      ensures c.redeemed[i] in c.db.tokens && c.db.tokens[c.redeemed[i]].session != session
    {
      if i < |b.redeemed| {
        assert c.redeemed[i] == b.redeemed[i];
      }
    }
  }

  ghost predicate Undoes(step: Step, tx: Tx) {
    step == Abort(tx)
  }

  lemma StepKeepsSession(s: System, step: Step, o: SessionId)
    requires Keyed(s.db) && Enabled(s, step) && o in s.db.sessions
    ensures o in Apply(s, step).db.sessions
    ensures s.db.sessions[o].revoked ==> Apply(s, step).db.sessions[o].revoked
  {
  }

  lemma StepKeepsToken(s: System, step: Step, k: TokenId)
    requires Keyed(s.db) && Enabled(s, step) && k in s.db.tokens
    ensures k in Apply(s, step).db.tokens && Apply(s, step).db.tokens[k].session == s.db.tokens[k].session
  {
  }

  /** Rows are never deleted, tokens keep their session and revocation is for ever. */
  lemma StepKeepsRows(s: System, step: Step)
    requires Invariant(s) && Enabled(s, step)
    ensures forall o :: o in s.db.sessions ==>
              o in Apply(s, step).db.sessions && (s.db.sessions[o].revoked ==> Apply(s, step).db.sessions[o].revoked)
    ensures forall k :: k in s.db.tokens ==>
      k in Apply(s, step).db.tokens && Apply(s, step).db.tokens[k].session == s.db.tokens[k].session
  {
    forall o | o in s.db.sessions
      ensures o in Apply(s, step).db.sessions && (s.db.sessions[o].revoked ==> Apply(s, step).db.sessions[o].revoked)
    {
      StepKeepsSession(s, step, o);
    }
    forall k | k in s.db.tokens
      ensures k in Apply(s, step).db.tokens && Apply(s, step).db.tokens[k].session == s.db.tokens[k].session
    {
      StepKeepsToken(s, step, k);
    }
  }

  lemma StepRedeemsNone(s: System, step: Step, tx: Tx, session: SessionId)
    requires Invariant(s) && Enabled(s, step) && Shut(s, tx, session)
    ensures NoneRedeemed(s, Apply(s, step), session)
  {
    if step.CommitRotate? {
      assert TxnOk(s.db, s.open[step.tx]);
    }
  }

  lemma StepKeepsShut(s: System, step: Step, tx: Tx, session: SessionId)
    requires Invariant(s) && Enabled(s, step) && Shut(s, tx, session)
    requires (Undoes(step, tx) ==> s.db.sessions[session].revoked)
    ensures Shut(Apply(s, step), tx, session)
    ensures s.db.sessions[session].revoked ==> Apply(s, step).db.sessions[session].revoked
    ensures forall k :: k in s.db.tokens ==>
      k in Apply(s, step).db.tokens && Apply(s, step).db.tokens[k].session == s.db.tokens[k].session
    ensures NoneRedeemed(s, Apply(s, step), session)
  {
    StepKeepsRows(s, step);
    StepRedeemsNone(s, step, tx, session);
    if !s.db.sessions[session].revoked {
      if step.CommitReset? && step.tx == tx {
        ClosedByReset(s, tx, step.now, session);
      } else {
        assert tx in Apply(s, step).open;
      }
    }
  }

  lemma {:induction false} RunKeepsShut(s: System, steps: seq<Step>, last: System, tx: Tx, session: SessionId)
    requires Invariant(s) && Run(s, steps, last) && Shut(s, tx, session)
    requires s.db.sessions[session].revoked || forall i :: 0 <= i < |steps| ==> !Undoes(steps[i], tx)
    ensures Shut(last, tx, session) && NoneRedeemed(s, last, session)
    ensures s.db.sessions[session].revoked ==> last.db.sessions[session].revoked
    ensures forall k :: k in s.db.tokens ==> k in last.db.tokens && last.db.tokens[k].session == s.db.tokens[k].session
    decreases |steps|
  {
    if steps != [] {
      var next := Apply(s, steps[0]);
      StepKeepsInvariant(s, steps[0]);
      StepKeepsShut(s, steps[0], tx, session);
      RunKeepsShut(next, steps[1..], last, tx, session);
      LogGrows(next, steps[1..], last);
      NoneRedeemedCompose(s, next, last, session);
    }
  }

  lemma {:induction false} LogGrows(s: System, steps: seq<Step>, last: System)
    requires Run(s, steps, last)
    ensures s.redeemed <= last.redeemed
    decreases |steps|
  {
    if steps != [] {
      LogGrows(Apply(s, steps[0]), steps[1..], last);
    }
  }

  /** A revoked session is dead for good: no continuation redeems a token of it. */
  lemma RevokedSessionIsDead(
      s0: System, before: seq<Step>, s: System, steps: seq<Step>, last: System, session: SessionId)
    requires Initial(s0) && Run(s0, before, s) && Run(s, steps, last)
    requires session in s.db.sessions && s.db.sessions[session].revoked
    ensures session in last.db.sessions && last.db.sessions[session].revoked && NoneRedeemed(s, last, session)
  {
    ReachableHasInvariant(s0, before, s);
    RunKeepsShut(s, steps, last, 0, session);
  }

  /** Reuse kills the session for good.  A refresh that finds its token revoked can only revoke and
      commit (or abort); the commit revokes the session and all its tokens, leaves every other session
      and its tokens alone, and no continuation redeems a token of that session. */
  lemma ReuseKillsSession(s0: System, before: seq<Step>, s: System, tx: Tx, after: seq<Step>, last: System)
    requires Initial(s0) && Run(s0, before, s)
    requires Enabled(s, CommitKill(tx)) && Run(Apply(s, CommitKill(tx)), after, last)
    ensures var dead, killed := s.open[tx].session, Apply(s, CommitKill(tx));
      && dead in killed.db.sessions && killed.db.sessions[dead].revoked && LiveTokensIn(killed.db, dead) == {}
      && killed.db.sessions.Keys == s.db.sessions.Keys && killed.db.tokens.Keys == s.db.tokens.Keys
      && (forall o :: o in s.db.sessions && o != dead ==> killed.db.sessions[o] == s.db.sessions[o])
      && (forall k :: k in s.db.tokens && s.db.tokens[k].session != dead ==> killed.db.tokens[k] == s.db.tokens[k])
      && NoneRedeemed(killed, last, dead)
  {
    var killed := Apply(s, CommitKill(tx));
    ReachableHasInvariant(s0, before, s);
    assert TxnOk(s.db, s.open[tx]);
    StepKeepsInvariant(s, CommitKill(tx));
    RunKeepsShut(killed, after, last, 0, s.open[tx].session);
  }

  ghost predicate Leaves(step: Step, tx: Tx) {
    step == Abort(tx) || (step.CommitReset? && step.tx == tx)
  }

  /** An open reset keeps the set of sessions its session update saw. */
  lemma {:induction false} ResetRemembersSessions(
      s: System, steps: seq<Step>, last: System, tx: Tx, seen: set<SessionId>)
    requires Run(s, steps, last) && tx in s.open
    requires (s.open[tx].ClosingSessions? || s.open[tx].ClosingTokens?) && s.open[tx].seen == seen
    requires forall i :: 0 <= i < |steps| ==> !Leaves(steps[i], tx)
    ensures tx in last.open && (last.open[tx].ClosingSessions? || last.open[tx].ClosingTokens?)
    ensures last.open[tx].seen == seen
    decreases |steps|
  {
    if steps != [] {
      assert !Leaves(steps[0], tx);
      ResetRemembersSessions(Apply(s, steps[0]), steps[1..], last, tx, seen);
    }
  }

  /** From the session update of a reset to its commit: the session stays shut, and the commit has it
      among those it revokes. */
  lemma ResetReachesCommit(
      a: System, tx: Tx, user: UserId, reissue: bool, between: seq<Step>, b: System, now: int, session: SessionId)
    requires Invariant(a)
    requires Enabled(a, BeginReset(tx, user, reissue)) && session in a.db.sessions
    requires a.db.sessions[session].user == user
    requires Run(Apply(a, BeginReset(tx, user, reissue)), between, b)
    requires forall i :: 0 <= i < |between| ==> !Leaves(between[i], tx)
    requires Enabled(b, CommitReset(tx, now))
    ensures Invariant(b) && Shut(b, tx, session) && NoneRedeemed(a, b, session)
    ensures Apply(b, CommitReset(tx, now)).db.sessions[session].revoked
  {
    var begun := Apply(a, BeginReset(tx, user, reissue));
    StepKeepsInvariant(a, BeginReset(tx, user, reissue));
    RunKeepsInvariant(begun, between, b);
    forall i | 0 <= i < |between| ensures !Undoes(between[i], tx) {
      assert !Leaves(between[i], tx);
    }
    RunKeepsShut(begun, between, b, tx, session);
    ResetRemembersSessions(begun, between, b, tx, SessionsOf(a.db, user));
    assert TxnOk(b.db, b.open[tx]);
    assert session in b.open[tx].seen;
    ClosedByReset(b, tx, now, session);
  }

  lemma ClosedByReset(b: System, tx: Tx, now: int, session: SessionId)
    requires Keyed(b.db) && tx in b.open && b.open[tx].ClosingTokens? && session in b.db.sessions
    requires session in b.open[tx].closing || b.db.sessions[session].revoked
    ensures session in ResetDb(b.db, b.open[tx], now).sessions
    ensures ResetDb(b.db, b.open[tx], now).sessions[session].revoked
  {
  }

  /** Reset beats refresh.  Let a reset run its session update in state a and commit in state b, with
      anything in between; then every session the user had in a is revoked from the commit on, and no
      token of it, old or new, is redeemed after the session update in whatever follows. */
  lemma ResetBeatsRefresh(
      s0: System, before: seq<Step>, a: System, tx: Tx, user: UserId, reissue: bool,
      between: seq<Step>, b: System, now: int, after: seq<Step>, last: System, session: SessionId)
    requires Initial(s0) && Run(s0, before, a)
    requires Enabled(a, BeginReset(tx, user, reissue)) && session in a.db.sessions
    requires a.db.sessions[session].user == user
    requires Run(Apply(a, BeginReset(tx, user, reissue)), between, b)
    requires forall i :: 0 <= i < |between| ==> !Leaves(between[i], tx)
    requires Enabled(b, CommitReset(tx, now)) && Run(Apply(b, CommitReset(tx, now)), after, last)
    ensures session in last.db.sessions && last.db.sessions[session].revoked
    ensures NoneRedeemed(a, last, session)
  {
    var done := Apply(b, CommitReset(tx, now));
    ReachableHasInvariant(s0, before, a);
    ResetReachesCommit(a, tx, user, reissue, between, b, now, session);
    StepKeepsInvariant(b, CommitReset(tx, now));
    StepKeepsShut(b, CommitReset(tx, now), tx, session);
    RunKeepsShut(done, after, last, tx, session);
    LogGrows(done, after, last);
    NoneRedeemedCompose(b, done, last, session);
    assert b.redeemed <= last.redeemed;
    TokensStay(b, CommitReset(tx, now), done, last);
    NoneRedeemedCompose(a, b, last, session);
  }

  lemma TokensStay(b: System, step: Step, done: System, last: System)
    requires Invariant(b) && Enabled(b, step) && done == Apply(b, step) && !step.CommitRotate?
    requires forall k :: k in done.db.tokens ==>
      k in last.db.tokens && last.db.tokens[k].session == done.db.tokens[k].session
    ensures forall k :: k in b.db.tokens ==> k in last.db.tokens && last.db.tokens[k].session == b.db.tokens[k].session
  {
  }

  // Refresh alone.

  /** What refresh answers and leaves behind when it runs by itself. */
  function RefreshAlone(db: Db, t: TokenId, now: int, userFound: bool): (Outcome, Db) {
    if t !in db.tokens || db.tokens[t].session !in db.sessions then (InvalidToken, db)
    else
      var row := db.tokens[t];
      if row.revoked then (Reuse, Kill(db, row.session, LiveTokensIn(db, row.session)))
      else if row.expiresAt < now then (TokenExpired, db)
      else if db.sessions[row.session].revoked then (SessionRevoked, db)
      else if !userFound then (Unauthorized, Kill(db, row.session, LiveTokensIn(db, row.session)))
      else (Rotated(db.nextToken), Rotate(db, t, now))
  }

  /** However refreshes interleave with everything else, a rotation commits what a refresh running
      alone at that moment would have done. */
  lemma RotationIsSerial(s0: System, steps: seq<Step>, s: System, tx: Tx, now: int)
    requires Initial(s0) && Run(s0, steps, s) && Enabled(s, CommitRotate(tx, now))
    ensures RefreshAlone(s.db, s.open[tx].token, now, true) ==
      (Rotated(s.db.nextToken), Apply(s, CommitRotate(tx, now)).db)
  {
    ReachableHasInvariant(s0, steps, s);
    assert TxnOk(s.db, s.open[tx]);
  }
}
