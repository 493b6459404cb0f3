/**
 * The two stores behind their common interface, and the contract they share: what a call does to everything
 * that can be read back.  What is proved from the contract alone holds of either store.
 */
module Stores {
  import opened StoreModel
  import opened StoreInvariants

  datatype Store = Memory(mem: MemState) | Sqlite(sql: SqlState)

  /** Everything that can be read from the tables. */
  function Seen(q: SqlState): (m: MemState)
    ensures m.users.Keys == q.users.Keys && m.sessions.Keys == q.sessions.Keys
  {
    MemState(map k | k in q.users :: ReadUser(k, q.users[k]), q.userSeq + 1,
             map k | k in q.sessions :: ReadSession(k, q.sessions[k]), q.sessionSeq + 1)
  }

  function View(s: Store): MemState {
    match s
    case Memory(m) => m
    case Sqlite(q) => Seen(q)
  }

  function Do(s: Store, op: Op, now: int): (Store, Reply) {
    match s
    case Memory(m) => var (m', reply) := MemStep(m, op, now); (Memory(m'), reply)
    case Sqlite(q) => var (q', reply) := SqlStep(q, op, now); (Sqlite(q'), reply)
  }

  // ------------------------------------------------------------------------------------------
  // The contract
  // ------------------------------------------------------------------------------------------

  /** When a call fails.  `CreateSession` is the exception: each store has a reason of its own. */
  predicate Refuses(m: MemState, op: Op) {
    match op
    case CreateUser(username, _, _) => NameUsed(m.users, username)
    case UpdateUser(id, username, _, _) => id !in m.users || NameUsedByOther(m.users, username, id)
    case DeleteUser(id) => id !in m.users
    case DeleteSession(id) => id !in m.sessions
    case _ => false
  }

  function Refusal(m: MemState, op: Op): StoreError {
    match op
    case CreateUser(_, _, _) => UserExists
    case UpdateUser(id, _, _, _) => if id !in m.users then UserNotFound else UsernameTaken
    case DeleteUser(_) => UserNotFound
    case _ => SessionNotFound
  }

  /** Exactly one user is new, under the next ID. */
  ghost predicate AddsUser(m: MemState, op: Op, m': MemState)
    requires op.CreateUser?
  {
    && m'.nextId == m.nextId + 1 && m'.sessions == m.sessions && m'.nextSessionId == m.nextSessionId
    && m.nextId in m'.users && m'.users == m.users[m.nextId := m'.users[m.nextId]]
    && var u := m'.users[m.nextId];
       u.id == m.nextId && u.username == op.username && u.passwordHash == op.passwordHash && u.role == op.role
  }

  /** Exactly one session is new, under the next ID. */
  ghost predicate AddsSession(m: MemState, op: Op, m': MemState)
    requires op.CreateSession?
  {
    && m'.nextSessionId == m.nextSessionId + 1 && m'.users == m.users && m'.nextId == m.nextId
    && m.nextSessionId in m'.sessions && m'.sessions == m.sessions[m.nextSessionId := m'.sessions[m.nextSessionId]]
    && var s := m'.sessions[m.nextSessionId];
       && s.id == m.nextSessionId && s.userId == op.userId && s.username == op.username && s.role == op.role
       && s.token == op.token
  }

  /** Exactly one user is rewritten, and keeps its ID and creation time. */
  ghost predicate RewritesUser(m: MemState, op: Op, m': MemState, reply: Reply)
    requires op.UpdateUser?
  {
    && reply.UserReply? && op.id in m.users && m' == m.(users := m.users[op.id := reply.user])
    && reply.user == m.users[op.id].(
         username := op.username, passwordHash := op.passwordHash, role := op.role, updatedAt := reply.user.updatedAt)
  }

  /** What a successful call does. */
  ghost predicate Succeeds(m: MemState, op: Op, m': MemState, reply: Reply) {
    match op
    case CreateUser(_, _, _) => AddsUser(m, op, m')
    case UpdateUser(_, _, _, _) => RewritesUser(m, op, m', reply)
    case DeleteUser(id) => m' == m.(users := m.users - {id})
    case CreateSession(_, _, _, _, _) => AddsSession(m, op, m')
    case DeleteSession(id) => m' == m.(sessions := m.sessions - {id})
    case DeleteSessionsByUserID(userId, keep) => m' == m.(sessions := WithoutUser(m.sessions, userId, keep))
    case DeleteExpiredSessions =>
      && m'.users == m.users && m'.nextId == m.nextId && m'.nextSessionId == m.nextSessionId
      && forall k :: k in m'.sessions ==> k in m.sessions && m'.sessions[k] == m.sessions[k]
  }

  ghost predicate Effect(m: MemState, op: Op, m': MemState, reply: Reply) {
    && (!op.CreateSession? ==> (reply.Failed? <==> Refuses(m, op)) && (reply.Failed? ==> reply.error == Refusal(m, op)))
    && (if reply.Failed? then m' == m else Succeeds(m, op, m', reply))
  }

  lemma MemoryUsersEffect(m: MemState, op: Op, now: int)
    requires MemInv(m) && (op.CreateUser? || op.UpdateUser? || op.DeleteUser?)
    ensures Effect(m, op, MemStep(m, op, now).0, MemStep(m, op, now).1)
  {
  }

  lemma MemorySessionsEffect(m: MemState, op: Op, now: int)
    requires MemInv(m) && !(op.CreateUser? || op.UpdateUser? || op.DeleteUser?)
    ensures Effect(m, op, MemStep(m, op, now).0, MemStep(m, op, now).1)
  {
  }

  lemma SeenNames(q: SqlState, username: string, id: Id)
    ensures NameUsed(Seen(q).users, username) <==> RowNameUsed(q.users, username)
    ensures NameUsedByOther(Seen(q).users, username, id) <==> RowNameUsedByOther(q.users, username, id)
  {
    var v := Seen(q).users;
    assert forall k :: k in q.users ==> v[k].username == q.users[k].username && v[k].id == k;
    if k :| k in q.users && q.users[k].username == username { assert v[k].username == username; }
    if k :| k in q.users && q.users[k].username == username && k != id { assert v[k].username == username; }
  }

  lemma SqliteUsersEffect(q: SqlState, op: Op, now: int)
    requires op.CreateUser? || op.UpdateUser? || op.DeleteUser?
    ensures Effect(Seen(q), op, Seen(SqlStep(q, op, now).0), SqlStep(q, op, now).1)
  {
    var m, m' := Seen(q), Seen(SqlStep(q, op, now).0);
    match op
    case CreateUser(username, _, _) =>
      SeenNames(q, username, 0);
      if !RowNameUsed(q.users, username) { assert m'.users == m.users[m.nextId := m'.users[m.nextId]]; }
    case UpdateUser(id, username, _, _) =>
      SeenNames(q, username, id);
      if id in q.users && !RowNameUsedByOther(q.users, username, id) {
        assert m'.users == m.users[id := m'.users[id]];
      }
    case DeleteUser(id) =>
      if id in q.users { assert m'.users == m.users - {id}; }
  }

  lemma SqliteCreateEffect(q: SqlState, op: Op, now: int)
    requires op.CreateSession?
    ensures Effect(Seen(q), op, Seen(SqlStep(q, op, now).0), SqlStep(q, op, now).1)
  {
    if !TokenUsed(q.sessions, op.token) {
      var m, m' := Seen(q), Seen(SqlStep(q, op, now).0);
      assert m'.sessions == m.sessions[m.nextSessionId := m'.sessions[m.nextSessionId]];
    }
  }

  lemma SqliteDeleteEffect(q: SqlState, op: Op, now: int)
    requires op.DeleteSession?
    ensures Effect(Seen(q), op, Seen(SqlStep(q, op, now).0), SqlStep(q, op, now).1)
  {
    if op.id in q.sessions {
      assert Seen(SqlStep(q, op, now).0).sessions == Seen(q).sessions - {op.id};
    }
  }

  lemma SqliteDeleteAllEffect(q: SqlState, op: Op, now: int)
    requires op.DeleteSessionsByUserID?
    ensures Effect(Seen(q), op, Seen(SqlStep(q, op, now).0), SqlStep(q, op, now).1)
  {
    assert Seen(SqlStep(q, op, now).0).sessions == WithoutUser(Seen(q).sessions, op.userId, op.excludeToken);
  }

  lemma SqlitePurgeEffect(q: SqlState, op: Op, now: int)
    requires op.DeleteExpiredSessions?
    ensures Effect(Seen(q), op, Seen(SqlStep(q, op, now).0), SqlStep(q, op, now).1)
  {
  }

  lemma SqliteSessionsEffect(q: SqlState, op: Op, now: int)
    requires !(op.CreateUser? || op.UpdateUser? || op.DeleteUser?)
    ensures Effect(Seen(q), op, Seen(SqlStep(q, op, now).0), SqlStep(q, op, now).1)
  {
    if op.CreateSession? {
      SqliteCreateEffect(q, op, now);
    } else if op.DeleteSession? {
      SqliteDeleteEffect(q, op, now);
    } else if op.DeleteSessionsByUserID? {
      SqliteDeleteAllEffect(q, op, now);
    } else {
      SqlitePurgeEffect(q, op, now);
    }
  }

  /** Either store does what the interface promises, and a call that fails changes nothing. */
  lemma DoEffect(s: Store, op: Op, now: int)
    requires MemInv(View(s))
    ensures var (s', reply) := Do(s, op, now);
            Effect(View(s), op, View(s'), reply) && (reply.Failed? ==> s' == s)
  {
    match s
    case Memory(m) =>
      if op.CreateUser? || op.UpdateUser? || op.DeleteUser? {
        MemoryUsersEffect(m, op, now);
      } else {
        MemorySessionsEffect(m, op, now);
      }
    case Sqlite(q) =>
      if op.CreateUser? || op.UpdateUser? || op.DeleteUser? {
        SqliteUsersEffect(q, op, now);
      } else {
        SqliteSessionsEffect(q, op, now);
      }
  }

  lemma EffectUsersInv(m: MemState, op: Op, m': MemState, reply: Reply)
    requires MemInv(m) && Effect(m, op, m', reply)
    ensures UsersInv(m') && 1 <= m'.nextId && m.nextId <= m'.nextId
    ensures forall k :: k in m'.users && k < m.nextId ==>
      k in m.users && m'.users[k].id == m.users[k].id && m'.users[k].createdAt == m.users[k].createdAt
  {
  }

  lemma EffectSessionsInv(m: MemState, op: Op, m': MemState, reply: Reply)
    requires MemInv(m) && Effect(m, op, m', reply)
    ensures SessionsInv(m') && 1 <= m'.nextSessionId && m.nextSessionId <= m'.nextSessionId
    ensures forall k :: k in m'.sessions && k < m.nextSessionId ==> k in m.sessions && m'.sessions[k] == m.sessions[k]
  {
  }

  /** The contract alone keeps IDs unique and names distinct, reuses no ID, and never changes what a record is
      born with. */
  lemma EffectInv(m: MemState, op: Op, m': MemState, reply: Reply)
    requires MemInv(m) && Effect(m, op, m', reply)
    ensures MemInv(m') && Continues(m, m')
  {
    EffectUsersInv(m, op, m', reply);
    EffectSessionsInv(m, op, m', reply);
  }

  /** One call on either store keeps the invariant and continues what there is. */
  lemma StepContinues(s: Store, op: Op, now: int)
    requires MemInv(View(s))
    ensures var s' := Do(s, op, now).0; MemInv(View(s')) && Continues(View(s), View(s'))
  {
    var (s', reply) := Do(s, op, now);
    DoEffect(s, op, now);
    EffectInv(View(s), op, View(s'), reply);
  }

  lemma StepMemInv(m: MemState, op: Op, now: int)
    requires MemInv(m)
    ensures MemInv(MemStep(m, op, now).0)
  {
    StepContinues(Memory(m), op, now);
  }

  /** The tables have unique names, keys equal to IDs and keys below the counters. */
  ghost predicate Sound(q: SqlState) {
    match q
    case SqlState(_, _, _, _) => MemInv(Seen(q))
  }

  lemma StepSound(q: SqlState, op: Op, now: int)
    requires Sound(q)
    ensures Sound(SqlStep(q, op, now).0)
  {
    StepContinues(Sqlite(q), op, now);
  }

  function AfterCalls(s: Store, calls: seq<Call>): Store {
    if calls == [] then s
    else
      var last := calls[|calls| - 1];
      Do(AfterCalls(s, calls[..|calls| - 1]), last.op, last.now).0
  }

  /** Over any calls on either store the invariant is kept, no ID of a user or session is used twice, no user's ID or
      creation time changes, and a session never changes at all, in particular not its owner. */
  lemma {:induction false} RunContinues(s: Store, calls: seq<Call>)
    requires MemInv(View(s))
    ensures MemInv(View(AfterCalls(s, calls))) && Continues(View(s), View(AfterCalls(s, calls)))
  {
    if calls != [] {
      var front, last := calls[..|calls| - 1], calls[|calls| - 1];
      RunContinues(s, front);
      StepContinues(AfterCalls(s, front), last.op, last.now);
    }
  }

  // ------------------------------------------------------------------------------------------
  // The contract in full
  // ------------------------------------------------------------------------------------------

  predicate TokenTaken(m: MemState, token: string) {
    exists k :: k in m.sessions && m.sessions[k].token == token
  }

  /** The timestamps, to the second, the reply, when `CreateSession` fails, and what a purge removes. */
  ghost predicate Details(m: MemState, op: Op, now: int, m': MemState, reply: Reply) {
    match op
    case CreateUser(_, _, _) =>
      reply.Failed? || (
        && reply.UserReply? && m.nextId in m'.users
        && SameUser(reply.user, m'.users[m.nextId])
        && Trunc(reply.user.createdAt) == Trunc(now) == Trunc(reply.user.updatedAt))
    case UpdateUser(_, _, _, _) => reply.Failed? || (reply.UserReply? && Trunc(reply.user.updatedAt) == Trunc(now))
    case CreateSession(_, _, _, ttl, token) =>
      && (reply.Failed? ==> ttl <= 0 || TokenTaken(m, token))
      && (ttl <= 0 && TokenTaken(m, token) ==> reply.Failed?)
      && (!reply.Failed? ==>
            && reply.SessionReply? && m.nextSessionId in m'.sessions
            && SameSession(reply.session, m'.sessions[m.nextSessionId])
            && Trunc(reply.session.createdAt) == Trunc(now) && Trunc(reply.session.expiresAt) == Trunc(now + ttl))
    case DeleteExpiredSessions =>
      && (forall k :: k in m.sessions && k !in m'.sessions ==> m.sessions[k].expiresAt < now)
      && (forall k :: k in m'.sessions ==> k in m.sessions && m.sessions[k].expiresAt > now - SECOND)
      && reply == Count(|m.sessions.Keys - m'.sessions.Keys|)
    case _ => reply.Failed? || reply == Done
  }

  /** Equal but for the fraction of a second of the timestamps. */
  ghost predicate SameUser(u: User, v: User) {
    && u.id == v.id && u.username == v.username && u.passwordHash == v.passwordHash && u.role == v.role
    && Trunc(u.createdAt) == Trunc(v.createdAt) && Trunc(u.updatedAt) == Trunc(v.updatedAt)
  }

  ghost predicate SameSession(s: Session, t: Session) {
    && s.id == t.id && s.userId == t.userId && s.username == t.username && s.role == t.role && s.token == t.token
    && Trunc(s.createdAt) == Trunc(t.createdAt) && Trunc(s.expiresAt) == Trunc(t.expiresAt)
  }

  lemma WholeSecond(t: int)
    ensures Trunc(Trunc(t) * SECOND) == Trunc(t) && Trunc(t) * SECOND <= t < (Trunc(t) + 1) * SECOND
  {
  }

  lemma MemoryDetails(m: MemState, op: Op, now: int)
    requires MemInv(m)
    ensures Details(m, op, now, MemStep(m, op, now).0, MemStep(m, op, now).1)
  {
  }

  lemma SqlitePurgeDetails(q: SqlState, op: Op, now: int)
    requires op.DeleteExpiredSessions?
    ensures Details(Seen(q), op, now, Seen(SqlStep(q, op, now).0), SqlStep(q, op, now).1)
  {
    WholeSecond(now);
    var left := RowsUnexpired(q.sessions, now);
    forall k | k in q.sessions
      ensures k !in left ==> Seen(q).sessions[k].expiresAt < now
      ensures k in left ==> Seen(q).sessions[k].expiresAt > now - SECOND
    {
      assert Seen(q).sessions[k].expiresAt == q.sessions[k].expiresAt * SECOND;
    }
  }

  lemma SqliteSessionDetails(q: SqlState, op: Op, now: int)
    requires op.CreateSession?
    ensures Details(Seen(q), op, now, Seen(SqlStep(q, op, now).0), SqlStep(q, op, now).1)
  {
    WholeSecond(now);
    WholeSecond(now + op.ttl);
    assert TokenTaken(Seen(q), op.token) <==> TokenUsed(q.sessions, op.token) by {
      if k :| k in q.sessions && q.sessions[k].token == op.token { assert Seen(q).sessions[k].token == op.token; }
    }
  }

  lemma SqliteDetails(q: SqlState, op: Op, now: int)
    ensures Details(Seen(q), op, now, Seen(SqlStep(q, op, now).0), SqlStep(q, op, now).1)
  {
    if op.DeleteExpiredSessions? {
      SqlitePurgeDetails(q, op, now);
    } else if op.CreateSession? {
      SqliteSessionDetails(q, op, now);
    } else {
      WholeSecond(now);
    }
  }

  /** Either store keeps the timestamps it is given, to the second; replies with what it has stored; refuses a session
      only for its time to live or its token; and a purge removes, and counts, sessions that are over, and all those
      that have been over for a second. */
  lemma DoDetails(s: Store, op: Op, now: int)
    requires MemInv(View(s))
    ensures var (s', reply) := Do(s, op, now); Details(View(s), op, now, View(s'), reply)
  {
    match s
    case Memory(m) => MemoryDetails(m, op, now);
    case Sqlite(q) => SqliteDetails(q, op, now);
  }
}
