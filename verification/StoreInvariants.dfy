/** What holds of the in-memory store after any calls: identities, uniqueness, and invisible purging. */
module StoreInvariants {
  import opened StoreModel

  ghost predicate UsersInv(m: MemState) {
    && (forall k :: k in m.users ==> m.users[k].id == k && 1 <= k < m.nextId)
    && (forall j, k :: j in m.users && k in m.users && j != k ==> m.users[j].username != m.users[k].username)
  }

  ghost predicate SessionsInv(m: MemState) {
    forall k :: k in m.sessions ==> m.sessions[k].id == k && 1 <= k < m.nextSessionId
  }

  ghost predicate MemInv(m: MemState) {
    UsersInv(m) && SessionsInv(m) && 1 <= m.nextId && 1 <= m.nextSessionId
  }

  lemma AddKeepsInv(m: MemState, u: User)
    requires MemInv(m) && u.id == m.nextId && !NameUsed(m.users, u.username)
    ensures MemInv(m.(users := m.users[u.id := u], nextId := u.id + 1))
  {
  }

  /** A call and the clock reading it makes. */
  datatype Call = Call(op: Op, now: int)

  function MemAfter(m: MemState, calls: seq<Call>): MemState {
    if calls == [] then m
    else
      var last := calls[|calls| - 1];
      MemStep(MemAfter(m, calls[..|calls| - 1]), last.op, last.now).0
  }

  /** From one state to a later one: identities are never reused and what a record is born with never changes. */
  ghost predicate Continues(m: MemState, m': MemState) {
    && m.nextId <= m'.nextId && m.nextSessionId <= m'.nextSessionId
    && (forall k :: k in m'.users && k < m.nextId ==>
          k in m.users && m'.users[k].id == m.users[k].id && m'.users[k].createdAt == m.users[k].createdAt)
    && (forall k :: k in m'.sessions && k < m.nextSessionId ==> k in m.sessions && m'.sessions[k] == m.sessions[k])
  }

  // ------------------------------------------------------------------------------------------
  // Purging
  // ------------------------------------------------------------------------------------------

  /** A purge at `t` returns the number of sessions it removes, removes exactly those over at `t`, and changes
      no user's listing at `t` or later. */
  lemma PurgeInvisible(m: MemState, t: int, userId: Id, t': int)
    requires t <= t'
    ensures var (p, reply) := MemStep(m, DeleteExpiredSessions, t);
            && reply.Count? && reply.n + |p.sessions| == |m.sessions|
            && p.users == m.users && p.nextSessionId == m.nextSessionId
            && (forall k :: k in m.sessions ==> (k in p.sessions <==> t <= m.sessions[k].expiresAt))
            && (forall k :: k in p.sessions ==> k in m.sessions && p.sessions[k] == m.sessions[k])
            && MemListing(p, userId, t') == MemListing(m, userId, t')
  {
    var left := Unexpired(m.sessions, t);
    assert left.Keys <= m.sessions.Keys;
    assert |m.sessions.Keys - left.Keys| == |m.sessions.Keys| - |left.Keys|;
  }

  /** At exactly its expiry time a session is no longer listed but not yet purged. */
  lemma ExpiryBoundary(m: MemState, k: Id)
    requires k in m.sessions
    ensures var t := m.sessions[k].expiresAt;
            k !in MemListing(m, m.sessions[k].userId, t) && k in MemStep(m, DeleteExpiredSessions, t).0.sessions
  {
  }

  // ------------------------------------------------------------------------------------------
  // To the nanosecond, and to the second
  // ------------------------------------------------------------------------------------------

  /** What the in-memory store keeps of a session is what it returns, and both have the exact times. */
  lemma SessionExactly(m: MemState, userId: Id, username: string, role: string, ttl: int, token: string, now: int)
    ensures var (m', reply) := MemCreateSession(m, userId, username, role, ttl, token, now);
            if ttl <= 0 then m' == m && reply == Failed(BadTtl)
            else
              && reply == SessionReply(Session(m.nextSessionId, userId, username, role, token, now, now + ttl))
              && m' == m.(
                   sessions := m.sessions[m.nextSessionId := reply.session], nextSessionId := m.nextSessionId + 1)
  {
  }

  /** It is listed, for its owner only, until exactly its time to live is over, and survives any purge until then. */
  lemma SessionLives(
    m: MemState, userId: Id, username: string, role: string, ttl: int, token: string, now: int, u: Id, t: int)
    requires ttl > 0
    ensures var m' := MemCreateSession(m, userId, username, role, ttl, token, now).0;
            && (m.nextSessionId in MemListing(m', u, t) <==> u == userId && t < now + ttl)
            && (m.nextSessionId in MemStep(m', DeleteExpiredSessions, t).0.sessions <==> t <= now + ttl)
  {
    SessionExactly(m, userId, username, role, ttl, token, now);
  }

  lemma NewUserExactly(m: MemState, username: string, hash: string, role: string, now: int)
    ensures var (m', reply) := MemCreateUser(m, username, hash, role, now);
            if exists k :: k in m.users && m.users[k].username == username then m' == m && reply == Failed(UserExists)
            else
              && reply == UserReply(User(m.nextId, username, hash, role, now, now))
              && m' == m.(users := m.users[m.nextId := reply.user], nextId := m.nextId + 1)
  {
  }

  lemma UpdateExactly(m: MemState, id: Id, username: string, hash: string, role: string, now: int)
    requires UsersInv(m)
    ensures var (m', reply) := MemUpdateUser(m, id, username, hash, role, now);
            if id !in m.users then m' == m && reply == Failed(UserNotFound)
            else if exists k :: k in m.users && k != id && m.users[k].username == username then
              m' == m && reply == Failed(UsernameTaken)
            else
              && reply == UserReply(User(id, username, hash, role, m.users[id].createdAt, now))
              && m' == m.(users := m.users[id := reply.user])
  {
  }

  /** Deleting a user's sessions leaves those of others and those with the token to keep, and nothing else. */
  lemma WithoutUserMeans(sessions: map<Id, Session>, userId: Id, keepToken: string, k: Id)
    ensures k in WithoutUser(sessions, userId, keepToken)
       <==> k in sessions && (sessions[k].userId != userId || sessions[k].token == keepToken)
    ensures k in WithoutUser(sessions, userId, keepToken) ==>
      WithoutUser(sessions, userId, keepToken)[k] == sessions[k]
  {
  }

  /** A text keeps whole seconds of 10^9 nanoseconds. */
  lemma TruncMeans(t: int)
    ensures 1_000_000_000 * Trunc(t) <= t < 1_000_000_000 * Trunc(t) + 1_000_000_000
  {
  }

  /** What is read back are the row's fields, the timestamps as whole seconds. */
  lemma ReadExactly(id: Id, u: UserRow, s: SessionRow)
    ensures ReadUser(id, u)
         == User(id, u.username, u.passwordHash, u.role, u.createdAt * 1_000_000_000, u.updatedAt * 1_000_000_000)
    ensures ReadSession(id, s)
         == Session(id, s.userId, s.username, s.role, s.token,
                    s.createdAt * 1_000_000_000, s.expiresAt * 1_000_000_000)
  {
  }

  /** The SQLite store returns a new user with the exact times, and keeps the seconds. */
  lemma NewRowExactly(q: SqlState, username: string, hash: string, role: string, now: int)
    ensures var (q', reply) := SqlCreateUser(q, username, hash, role, now);
            if exists k :: k in q.users && q.users[k].username == username then q' == q && reply == Failed(UserExists)
            else
              var id, second := q.userSeq + 1, now / 1_000_000_000;
              && reply == UserReply(User(id, username, hash, role, now, now))
              && q' == q.(users := q.users[id := UserRow(username, hash, role, second, second)], userSeq := id)
  {
  }

  /** Likewise a new session; it is refused only for its token. */
  lemma SessionRowExactly(q: SqlState, userId: Id, username: string, role: string, ttl: int, token: string, now: int)
    ensures var (q', reply) := SqlCreateSession(q, userId, username, role, ttl, token, now);
            if exists k :: k in q.sessions && q.sessions[k].token == token then q' == q && reply == Failed(TokenExists)
            else
              var id := q.sessionSeq + 1;
              var row := SessionRow(userId, username, role, token, now / 1_000_000_000, (now + ttl) / 1_000_000_000);
              && reply == SessionReply(Session(id, userId, username, role, token, now, now + ttl))
              && q' == q.(sessions := q.sessions[id := row], sessionSeq := id)
  {
  }

  /** An update is read back, so its reply has whole seconds. */
  lemma UpdatedRowExactly(q: SqlState, id: Id, username: string, hash: string, role: string, now: int)
    ensures var (q', reply) := SqlUpdateUser(q, id, username, hash, role, now);
            if id !in q.users then q' == q && reply == Failed(UserNotFound)
            else if exists k :: k in q.users && k != id && q.users[k].username == username then
              q' == q && reply == Failed(UsernameTaken)
            else
              var created, second := q.users[id].createdAt, now / 1_000_000_000;
              && reply == UserReply(User(id, username, hash, role, created * 1_000_000_000, second * 1_000_000_000))
              && q' == q.(users := q.users[id := UserRow(username, hash, role, created, second)])
  {
  }

  /** The rows that are listed, that a purge leaves, and that the deletion of a user's sessions leaves. */
  lemma RowsMean(q: SqlState, userId: Id, keepToken: string, now: int, k: Id)
    ensures k in SqlListing(q, userId, now)
       <==> k in q.sessions && q.sessions[k].userId == userId && q.sessions[k].expiresAt > now / 1_000_000_000
    ensures k in RowsUnexpired(q.sessions, now)
       <==> k in q.sessions && q.sessions[k].expiresAt >= now / 1_000_000_000
    ensures k in RowsWithoutUser(q.sessions, userId, keepToken)
       <==> k in q.sessions && (q.sessions[k].userId != userId || q.sessions[k].token == keepToken)
  {
  }
}
