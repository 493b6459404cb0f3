/**
 * The two stores side by side: the SQLite store simulates the in-memory one up to the precision of its
 * timestamps, as long as times to live are positive and tokens are fresh.
 */
module StoreSimulation {
  import opened StoreModel
  import opened StoreInvariants
  import opened Stores

  ghost predicate UserMatches(u: User, row: UserRow) {
    && row.username == u.username && row.passwordHash == u.passwordHash && row.role == u.role
    && row.createdAt == Trunc(u.createdAt)
    && row.updatedAt == Trunc(u.updatedAt)
  }

  ghost predicate SessionMatches(s: Session, row: SessionRow) {
    && row.userId == s.userId && row.username == s.username && row.role == s.role && row.token == s.token
    && row.createdAt == Trunc(s.createdAt)
    && row.expiresAt == Trunc(s.expiresAt)
  }

  /** The row's session was over before `now`. */
  ghost predicate RowExpired(row: SessionRow, now: int) {
    row.expiresAt * SECOND < now
  }

  ghost predicate UsersRelated(m: MemState, q: SqlState) {
    && m.users.Keys == q.users.Keys
    && (forall k :: k in m.users ==> UserMatches(m.users[k], q.users[k]))
    && m.nextId == q.userSeq + 1
  }

  /** Every session in memory is in the table, and every other row has already expired. */
  ghost predicate SessionsRelated(m: MemState, q: SqlState, now: int) {
    && (forall k :: k in m.sessions ==> k in q.sessions && SessionMatches(m.sessions[k], q.sessions[k]))
    && (forall k :: k in q.sessions && k !in m.sessions ==> RowExpired(q.sessions[k], now))
    && (forall k :: k in q.sessions ==> k <= q.sessionSeq)
    && m.nextSessionId == q.sessionSeq + 1
  }

  ghost predicate TokensIssued(q: SqlState, issued: set<string>) {
    forall k :: k in q.sessions ==> q.sessions[k].token in issued
  }

  ghost predicate Related(m: MemState, q: SqlState, issued: set<string>, now: int) {
    MemInv(m) && UsersRelated(m, q) && SessionsRelated(m, q, now) && TokensIssued(q, issued)
  }

  lemma ReadMatches(t: int)
    ensures Trunc(Trunc(t) * SECOND) == Trunc(t)
  {
  }

  // ------------------------------------------------------------------------------------------
  // One call
  // ------------------------------------------------------------------------------------------

  /** A time to live, if there is one, is positive, and a token has not been issued before. */
  predicate Admissible(op: Op, now: int, issued: set<string>) {
    Fits(op, now) && (op.CreateSession? ==> op.ttl > 0 && op.token !in issued)
  }

  function IssuedBy(op: Op): set<string> { if op.CreateSession? then {op.token} else {} }

  /** The replies agree.  They may differ for `DeleteSession` of a session that memory has already purged and
      for the number of sessions purged. */
  ghost predicate RepliesAgree(op: Op, m: MemState, q: SqlState, r: Reply, r': Reply) {
    match op
    case UpdateUser(_, _, _, _) =>
      if r.UserReply? then r'.UserReply? && SameUser(r.user, r'.user) else r == r'
    case DeleteSession(id) =>
      r == r' || (id !in m.sessions && id in q.sessions && r == Failed(SessionNotFound) && r' == Done)
    case DeleteExpiredSessions => r.Count? && r'.Count?
    case _ => r == r'
  }

  lemma NamesRelated(m: MemState, q: SqlState, username: string, id: Id)
    requires UsersRelated(m, q) && UsersInv(m)
    ensures NameUsed(m.users, username) <==> RowNameUsed(q.users, username)
    ensures NameUsedByOther(m.users, username, id) <==> RowNameUsedByOther(q.users, username, id)
  {
    if k :| k in m.users && m.users[k].username == username { assert q.users[k].username == username; }
    if k :| k in q.users && q.users[k].username == username { assert m.users[k].username == username; }
    if k :| k in m.users && m.users[k].username == username && m.users[k].id != id {
      assert q.users[k].username == username;
    }
    if k :| k in q.users && q.users[k].username == username && k != id {
      assert m.users[k].username == username;
    }
  }

  lemma StepUsers(m: MemState, q: SqlState, op: Op, now: int)
    requires UsersRelated(m, q) && UsersInv(m) && Fits(op, now)
    requires op.CreateUser? || op.UpdateUser? || op.DeleteUser?
    ensures UsersRelated(MemStep(m, op, now).0, SqlStep(q, op, now).0)
    ensures RepliesAgree(op, m, q, MemStep(m, op, now).1, SqlStep(q, op, now).1)
  {
    match op
    case CreateUser(username, _, _) => NamesRelated(m, q, username, 0);
    case UpdateUser(id, username, hash, role) =>
      NamesRelated(m, q, username, id);
      ReadMatches(now);
      if id in m.users { ReadMatches(m.users[id].createdAt); }
    case DeleteUser(_) =>
  }

  lemma StepCreateSession(m: MemState, q: SqlState, issued: set<string>, op: Op, now: int)
    requires SessionsRelated(m, q, now) && TokensIssued(q, issued) && SessionsInv(m) && Admissible(op, now, issued)
    requires op.CreateSession?
    ensures SessionsRelated(MemStep(m, op, now).0, SqlStep(q, op, now).0, now)
    ensures MemStep(m, op, now).1 == SqlStep(q, op, now).1
  {
    assert !TokenUsed(q.sessions, op.token);
  }

  lemma StepDeleteSessions(m: MemState, q: SqlState, op: Op, now: int)
    requires SessionsRelated(m, q, now)
    requires op.DeleteSession? || op.DeleteSessionsByUserID?
    ensures SessionsRelated(MemStep(m, op, now).0, SqlStep(q, op, now).0, now)
    ensures RepliesAgree(op, m, q, MemStep(m, op, now).1, SqlStep(q, op, now).1)
  {
  }

  lemma TruncBounds(t: int)
    ensures Trunc(t) * SECOND <= t < (Trunc(t) + 1) * SECOND
  {
  }

  lemma StepPurge(m: MemState, q: SqlState, now: int)
    requires SessionsRelated(m, q, now)
    ensures SessionsRelated(MemStep(m, DeleteExpiredSessions, now).0, SqlStep(q, DeleteExpiredSessions, now).0, now)
  {
    TruncBounds(now);
    forall k | k in m.sessions
      ensures Trunc(m.sessions[k].expiresAt) < Trunc(now) ==> m.sessions[k].expiresAt < now
      ensures m.sessions[k].expiresAt < now ==> RowExpired(q.sessions[k], now)
    {
      TruncBounds(m.sessions[k].expiresAt);
    }
  }

  lemma StepSessions(m: MemState, q: SqlState, issued: set<string>, op: Op, now: int)
    requires SessionsRelated(m, q, now) && TokensIssued(q, issued) && SessionsInv(m) && Admissible(op, now, issued)
    requires !(op.CreateUser? || op.UpdateUser? || op.DeleteUser?)
    ensures SessionsRelated(MemStep(m, op, now).0, SqlStep(q, op, now).0, now)
    ensures RepliesAgree(op, m, q, MemStep(m, op, now).1, SqlStep(q, op, now).1)
  {
    if op.CreateSession? {
      StepCreateSession(m, q, issued, op, now);
    } else if op.DeleteExpiredSessions? {
      StepPurge(m, q, now);
    } else {
      StepDeleteSessions(m, q, op, now);
    }
  }

  lemma StepTokens(q: SqlState, issued: set<string>, op: Op, now: int)
    requires TokensIssued(q, issued)
    ensures TokensIssued(SqlStep(q, op, now).0, issued + IssuedBy(op))
  {
    forall k | k in SqlStep(q, op, now).0.sessions
      ensures SqlStep(q, op, now).0.sessions[k].token in issued + IssuedBy(op)
    {
      if k in q.sessions { assert q.sessions[k].token in issued; }
    }
  }

  lemma StepKeepsUsers(m: MemState, q: SqlState, op: Op, now: int)
    requires UsersRelated(m, q) && !(op.CreateUser? || op.UpdateUser? || op.DeleteUser?)
    ensures UsersRelated(MemStep(m, op, now).0, SqlStep(q, op, now).0)
  {
  }

  lemma StepKeepsSessions(m: MemState, q: SqlState, t: int, op: Op, now: int)
    requires SessionsRelated(m, q, t) && t <= now && (op.CreateUser? || op.UpdateUser? || op.DeleteUser?)
    ensures SessionsRelated(MemStep(m, op, now).0, SqlStep(q, op, now).0, now)
  {
  }

  /** One call on related stores, with the same clock reading and the same token, gives agreeing replies and
      related stores. */
  lemma StepRelated(m: MemState, q: SqlState, issued: set<string>, t: int, op: Op, now: int)
    requires Related(m, q, issued, t) && t <= now && Admissible(op, now, issued)
    ensures Related(MemStep(m, op, now).0, SqlStep(q, op, now).0, issued + IssuedBy(op), now)
    ensures RepliesAgree(op, m, q, MemStep(m, op, now).1, SqlStep(q, op, now).1)
  {
    StepMemInv(m, op, now);
    StepTokens(q, issued, op, now);
    if op.CreateUser? || op.UpdateUser? || op.DeleteUser? {
      StepUsers(m, q, op, now);
      StepKeepsSessions(m, q, t, op, now);
    } else {
      StepKeepsUsers(m, q, op, now);
      StepSessions(m, q, issued, op, now);
    }
  }

  /** The condition on the time to live is needed, and it is all that is: with a fresh token the two
      `CreateSession`s agree if and only if the time to live is positive. */
  lemma TtlAgreeIff(m: MemState, q: SqlState, issued: set<string>, t: int, op: Op, now: int)
    requires Related(m, q, issued, t) && t <= now && Fits(op, now) && op.CreateSession? && op.token !in issued
    ensures MemStep(m, op, now).1 == SqlStep(q, op, now).1 <==> op.ttl > 0
  {
    if op.ttl > 0 { StepRelated(m, q, issued, t, op, now); }
  }

  // ------------------------------------------------------------------------------------------
  // Whole traces
  // ------------------------------------------------------------------------------------------

  function Issued(calls: seq<Call>): set<string> {
    if calls == [] then {} else Issued(calls[..|calls| - 1]) + IssuedBy(calls[|calls| - 1].op)
  }

  /** The clock never runs backwards, times to live are positive, and no token is issued twice. */
  predicate Trace(calls: seq<Call>) {
    if calls == [] then true
    else
      var front, last := calls[..|calls| - 1], calls[|calls| - 1];
      && Trace(front)
      && Admissible(last.op, last.now, Issued(front))
      && (front != [] ==> front[|front| - 1].now <= last.now)
  }

  function SqlAfter(calls: seq<Call>): SqlState
    requires Trace(calls)
  {
    if calls == [] then EmptySql
    else
      var last := calls[|calls| - 1];
      SqlStep(SqlAfter(calls[..|calls| - 1]), last.op, last.now).0
  }

  function LastTime(calls: seq<Call>): int { if calls == [] then 0 else calls[|calls| - 1].now }

  /** After any trace the stores are related: equal users up to truncation, equal IDs given out, every session
      in memory also in the table, and every extra row expired. */
  lemma {:induction false} Simulation(calls: seq<Call>)
    requires Trace(calls)
    ensures Related(MemAfter(EmptyMem, calls), SqlAfter(calls), Issued(calls), LastTime(calls))
  {
    if calls != [] {
      var front, last := calls[..|calls| - 1], calls[|calls| - 1];
      Simulation(front);
      StepRelated(MemAfter(EmptyMem, front), SqlAfter(front), Issued(front), LastTime(front), last.op, last.now);
    }
  }

  /** Every call of a trace is answered alike by both stores. */
  lemma TraceRepliesAgree(calls: seq<Call>)
    requires Trace(calls) && calls != []
    ensures var front, last := calls[..|calls| - 1], calls[|calls| - 1];
            var m, q := MemAfter(EmptyMem, front), SqlAfter(front);
            RepliesAgree(last.op, m, q, MemStep(m, last.op, last.now).1, SqlStep(q, last.op, last.now).1)
  {
    var front, last := calls[..|calls| - 1], calls[|calls| - 1];
    Simulation(front);
    StepRelated(MemAfter(EmptyMem, front), SqlAfter(front), Issued(front), LastTime(front), last.op, last.now);
  }

  // ------------------------------------------------------------------------------------------
  // Queries
  // ------------------------------------------------------------------------------------------

  /** SQLite lists exactly those of the sessions memory lists that last into a later second; so it lists
      nothing else, and everything with at least one second left. */
  lemma ListingsRelated(m: MemState, q: SqlState, userId: Id, now: int)
    requires SessionsRelated(m, q, now)
    ensures SqlListing(q, userId, now) <= MemListing(m, userId, now)
    ensures forall k :: k in MemListing(m, userId, now) ==>
      (k in SqlListing(q, userId, now) <==> Trunc(m.sessions[k].expiresAt) > Trunc(now))
    ensures forall k :: k in MemListing(m, userId, now) && m.sessions[k].expiresAt >= now + SECOND ==>
      k in SqlListing(q, userId, now)
  {
    TruncBounds(now);
    forall k | k in q.sessions && q.sessions[k].expiresAt > Trunc(now) ensures k in m.sessions {
      assert q.sessions[k].expiresAt * SECOND >= (Trunc(now) + 1) * SECOND;
    }
    forall k | k in m.sessions
      ensures Trunc(m.sessions[k].expiresAt) > Trunc(now) ==> m.sessions[k].expiresAt > now
      ensures m.sessions[k].expiresAt >= now + SECOND ==> Trunc(m.sessions[k].expiresAt) > Trunc(now)
    {
      TruncBounds(m.sessions[k].expiresAt);
    }
    forall k | k in SqlListing(q, userId, now) ensures k in MemListing(m, userId, now) {
      assert SessionMatches(m.sessions[k], q.sessions[k]);
    }
  }

  /** Newest first, as in memory, is newest first for the texts too. */
  lemma OrderRelated(a: Session, b: Session, rowA: SessionRow, rowB: SessionRow)
    requires SessionMatches(a, rowA) && SessionMatches(b, rowB)
    requires a.createdAt >= b.createdAt
    ensures rowA.createdAt >= rowB.createdAt
  {
  }

  /** SQLite purges only what memory purges. */
  lemma PurgeRelated(m: MemState, q: SqlState, now: int, k: Id)
    requires SessionsRelated(m, q, now) && k in m.sessions
    ensures k !in SqlStep(q, DeleteExpiredSessions, now).0.sessions ==>
            k !in MemStep(m, DeleteExpiredSessions, now).0.sessions
  {
  }

  lemma PurgeCount(m: MemState, now: int)
    ensures MemStep(m, DeleteExpiredSessions, now).1 == Count(|Over(m, now)|)
  {
    assert m.sessions.Keys - Unexpired(m.sessions, now).Keys == Over(m, now);
  }

  /** The sessions a purge of the in-memory store removes. */
  function Over(m: MemState, now: int): set<Id> { set k | k in m.sessions && m.sessions[k].expiresAt < now }

  lemma {:induction false} Subsets(a: set<Id>, b: set<Id>)
    requires a <= b
    ensures |a| <= |b| && (|a| == |b| <==> a == b)
  {
    assert b == a + (b - a);
    assert |b| == |a| + |b - a|;
  }

  /** While no row is left over, SQLite purges at most as many sessions as memory, and as many if and only if none has
      expired within the current second. */
  lemma PurgeCountsRelated(m: MemState, q: SqlState, now: int)
    requires SessionsRelated(m, q, now) && m.sessions.Keys == q.sessions.Keys
    ensures var r, r' := MemStep(m, DeleteExpiredSessions, now).1, SqlStep(q, DeleteExpiredSessions, now).1;
            && r.Count? && r'.Count? && r'.n <= r.n
            && (r'.n == r.n <==>
                  forall k :: k in m.sessions && m.sessions[k].expiresAt < now ==>
                    Trunc(m.sessions[k].expiresAt) < Trunc(now))
  {
    var a := q.sessions.Keys - RowsUnexpired(q.sessions, now).Keys;
    forall k ensures k in a <==> k in m.sessions && Trunc(m.sessions[k].expiresAt) < Trunc(now) {
      if k in m.sessions { assert SessionMatches(m.sessions[k], q.sessions[k]); }
    }
    forall k | k in a ensures k in Over(m, now) {
      TruncBounds(now);
      TruncBounds(m.sessions[k].expiresAt);
    }
    PurgeCount(m, now);
    Subsets(a, Over(m, now));
  }

  /** `GetUser` answers alike, to the second. */
  lemma GetUserRelated(m: MemState, q: SqlState, id: Id)
    requires UsersRelated(m, q) && UsersInv(m)
    ensures id in m.users <==> id in q.users
    ensures id in m.users ==> SameUser(m.users[id], ReadUser(id, q.users[id]))
  {
    if id in m.users {
      ReadMatches(m.users[id].createdAt);
      ReadMatches(m.users[id].updatedAt);
    }
  }

  /** A session that is not over is found by its ID in both stores or in neither. */
  lemma GetSessionRelated(m: MemState, q: SqlState, id: Id, now: int)
    requires SessionsRelated(m, q, now) && SessionsInv(m)
    ensures id in m.sessions ==> id in q.sessions && SameSession(m.sessions[id], ReadSession(id, q.sessions[id]))
    ensures id in q.sessions && id !in m.sessions ==> RowExpired(q.sessions[id], now)
  {
    if id in m.sessions {
      ReadMatches(m.sessions[id].createdAt);
      ReadMatches(m.sessions[id].expiresAt);
    }
  }

  /** The UNIQUE constraint on the token. */
  ghost predicate TokensDistinct(q: SqlState) {
    forall j, k :: j in q.sessions && k in q.sessions && j != k ==> q.sessions[j].token != q.sessions[k].token
  }

  lemma StepTokensDistinct(q: SqlState, op: Op, now: int)
    requires TokensDistinct(q)
    ensures TokensDistinct(SqlStep(q, op, now).0)
  {
    if op.CreateSession? {
      CreateTokensDistinct(q, op, now);
    } else {
      var q' := SqlStep(q, op, now).0;
      assert forall k :: k in q'.sessions ==> k in q.sessions && q'.sessions[k] == q.sessions[k];
    }
  }

  lemma CreateTokensDistinct(q: SqlState, op: Op, now: int)
    requires TokensDistinct(q) && op.CreateSession?
    ensures TokensDistinct(SqlStep(q, op, now).0)
  {
  }

  lemma {:induction false} TokensStayDistinct(calls: seq<Call>)
    requires Trace(calls)
    ensures TokensDistinct(SqlAfter(calls))
  {
    if calls != [] {
      var front, last := calls[..|calls| - 1], calls[|calls| - 1];
      TokensStayDistinct(front);
      StepTokensDistinct(SqlAfter(front), last.op, last.now);
    }
  }

  /** After any trace a lookup by token answers alike: the token of a session in memory is found in SQLite too,
      whichever row with it is looked at, as the same session to the second; one that only SQLite finds has expired. */
  lemma TokenLookupRelated(calls: seq<Call>, token: string, k: Id)
    requires Trace(calls)
    requires k in SqlAfter(calls).sessions && SqlAfter(calls).sessions[k].token == token
    ensures var m, q := MemAfter(EmptyMem, calls), SqlAfter(calls);
            && (forall j :: j in m.sessions && m.sessions[j].token == token ==>
                  j == k && SameSession(m.sessions[j], ReadSession(k, q.sessions[k])))
            && ((forall j :: j in m.sessions ==> m.sessions[j].token != token) ==>
                  RowExpired(q.sessions[k], LastTime(calls)))
  {
    var m, q := MemAfter(EmptyMem, calls), SqlAfter(calls);
    Simulation(calls);
    TokensStayDistinct(calls);
    forall j | j in m.sessions && m.sessions[j].token == token
      ensures j == k && SameSession(m.sessions[j], ReadSession(k, q.sessions[k]))
    {
      assert q.sessions[j].token == token;
      GetSessionRelated(m, q, k, LastTime(calls));
    }
  }

  /** And a token that memory finds is in the table. */
  lemma TokenFoundInBoth(calls: seq<Call>, j: Id)
    requires Trace(calls) && j in MemAfter(EmptyMem, calls).sessions
    ensures j in SqlAfter(calls).sessions
    ensures SqlAfter(calls).sessions[j].token == MemAfter(EmptyMem, calls).sessions[j].token
  {
    Simulation(calls);
  }
}
